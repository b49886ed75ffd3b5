/** How the batch driver names the artifacts of each scan: the input paths
    from a directory listing, the stem of a scan, the output volume, the
    registration matrix and the transient resampled volume, and the
    selection of BET mask files for deletion. Directory listings are
    parameters; nothing here touches a file system. */
module Naming {
  import opened PyStr

  const InputDir := "input_files/"
  const OutputDir := "output_files"
  const MatDir := "mat_files"
  const ResampledDir := "resampled_files"
  const OutputSuffix := "_final.nii.gz"
  const MatSuffix := "_final.mat"
  const ResampledSuffix := "_resampled.nii.gz"
  const MaskMarker := "_mask"

  /** `get_input_file(path)`: one joined path per listing entry. */
  function InputFiles(dir: string, listing: seq<string>): seq<string>
  {
    seq(|listing|, i requires 0 <= i < |listing| => PathJoin(dir, listing[i]))
  }

  /** The scan's stem: the last `/`-component of its path, cut at the first `.`. */
  function Stem(path: string): string
  {
    FirstPart(LastPart(path, '/'), '.')
  }

  /** A stem holds neither a `/` nor a `.`. */
  lemma StemChars(path: string)
    ensures '/' !in Stem(path) && '.' !in Stem(path)
  {
    var last := LastPart(path, '/');
    assert Stem(path) == last[..|Stem(path)|];
  }

  /** The name `get_output_file` gives one input. */
  function OutputFile(input: string): string
  {
    PathJoin(OutputDir, Stem(input) + OutputSuffix)
  }

  /** The name `get_mat_file` gives one input. */
  function MatFile(input: string): string
  {
    PathJoin(MatDir, Stem(input) + MatSuffix)
  }

  /** The name `get_resampled_file` gives one input. */
  function ResampledFile(input: string): string
  {
    PathJoin(ResampledDir, Stem(input) + ResampledSuffix)
  }

  function OutputFiles(inputs: seq<string>): seq<string>
  {
    seq(|inputs|, i requires 0 <= i < |inputs| => OutputFile(inputs[i]))
  }

  function MatFiles(inputs: seq<string>): seq<string>
  {
    seq(|inputs|, i requires 0 <= i < |inputs| => MatFile(inputs[i]))
  }

  function ResampledFiles(inputs: seq<string>): seq<string>
  {
    seq(|inputs|, i requires 0 <= i < |inputs| => ResampledFile(inputs[i]))
  }

  /** Joining `dir` (no trailing `/`) with stem + suffix inserts exactly one `/`. */
  lemma JoinStem(dir: string, path: string, suffix: string)
    requires |dir| > 0 && dir[|dir| - 1] != '/'
    requires |suffix| > 0 && suffix[0] != '/'
    ensures PathJoin(dir, Stem(path) + suffix) == dir + "/" + Stem(path) + suffix
  {
    StemChars(path);
    var b := Stem(path) + suffix;
    if |Stem(path)| > 0 {
      assert b[0] == Stem(path)[0];
    }
    JoinRelative(dir, b);
  }

  /** `get_input_file` on the default directory: one path per listing
      entry, in listing order, each the directory followed directly by the
      entry (no doubled `/`), whose last component is the entry again. */
  lemma InputFilesSpec(listing: seq<string>)
    requires forall i :: 0 <= i < |listing| ==> '/' !in listing[i]
    ensures var paths := InputFiles(InputDir, listing);
      |paths| == |listing| &&
      forall i :: 0 <= i < |paths| ==>
        paths[i] == InputDir + listing[i] && LastPart(paths[i], '/') == listing[i]
  {
    var paths := InputFiles(InputDir, listing);
    forall i | 0 <= i < |paths|
      ensures paths[i] == InputDir + listing[i] && LastPart(paths[i], '/') == listing[i]
    {
      if |listing[i]| > 0 {
        assert listing[i][0] in listing[i];
      }
      JoinRelative(InputDir, listing[i]);
      JoinThenLastPart(InputDir, listing[i]);
    }
  }

  /** Round trip: the stem of the path built for a listing entry is the
      stem of the entry itself. */
  lemma InputStemRoundTrip(dir: string, name: string)
    requires '/' !in name
    ensures Stem(PathJoin(dir, name)) == Stem(name)
  {
    JoinThenLastPart(dir, name);
    FirstPartNoSeparator(name, '/');
  }

  /** `get_output_file`, `get_mat_file` and `get_resampled_file`: each keeps
      length and order, and element `i` is its directory, `/`, the stem of
      input `i` and its suffix; so the three lists zipped by the driver pair
      files of the same scan. */
  lemma DerivedFilesSpec(inputs: seq<string>)
    ensures |OutputFiles(inputs)| == |MatFiles(inputs)| == |ResampledFiles(inputs)| == |inputs|
    ensures forall i :: 0 <= i < |inputs| ==>
      OutputFiles(inputs)[i] == OutputDir + "/" + Stem(inputs[i]) + OutputSuffix &&
      MatFiles(inputs)[i] == MatDir + "/" + Stem(inputs[i]) + MatSuffix &&
      ResampledFiles(inputs)[i] == ResampledDir + "/" + Stem(inputs[i]) + ResampledSuffix
  {
    forall i | 0 <= i < |inputs|
      ensures OutputFiles(inputs)[i] == OutputDir + "/" + Stem(inputs[i]) + OutputSuffix
      ensures MatFiles(inputs)[i] == MatDir + "/" + Stem(inputs[i]) + MatSuffix
      ensures ResampledFiles(inputs)[i] == ResampledDir + "/" + Stem(inputs[i]) + ResampledSuffix
    {
      JoinStem(OutputDir, inputs[i], OutputSuffix);
      JoinStem(MatDir, inputs[i], MatSuffix);
      JoinStem(ResampledDir, inputs[i], ResampledSuffix);
    }
  }

  /** The stem of each derived name is the scan's stem plus a marker: the
      output volume and the matrix share the stem `<stem>_final`. */
  lemma DerivedStems(input: string)
    ensures Stem(OutputFile(input)) == Stem(input) + "_final"
    ensures Stem(MatFile(input)) == Stem(input) + "_final"
    ensures Stem(ResampledFile(input)) == Stem(input) + "_resampled"
  {
    OutputStem(input);
    MatStem(input);
    ResampledStem(input);
  }

  lemma OutputStem(input: string)
    ensures Stem(OutputFile(input)) == Stem(input) + "_final"
  {
    assert OutputSuffix == "_final" + "." + "nii.gz";
    DerivedStem(OutputDir, input, "_final", "nii.gz", OutputSuffix);
  }

  lemma MatStem(input: string)
    ensures Stem(MatFile(input)) == Stem(input) + "_final"
  {
    assert MatSuffix == "_final" + "." + "mat";
    DerivedStem(MatDir, input, "_final", "mat", MatSuffix);
  }

  lemma ResampledStem(input: string)
    ensures Stem(ResampledFile(input)) == Stem(input) + "_resampled"
  {
    assert ResampledSuffix == "_resampled" + "." + "nii.gz";
    DerivedStem(ResampledDir, input, "_resampled", "nii.gz", ResampledSuffix);
  }

  lemma DerivedStem(dir: string, input: string, marker: string, ext: string, suffix: string)
    requires |dir| > 0 && dir[|dir| - 1] != '/'
    requires suffix == marker + "." + ext
    requires |marker| > 0 && marker[0] != '/' && '/' !in marker && '.' !in marker && '/' !in ext
    ensures Stem(PathJoin(dir, Stem(input) + suffix)) == Stem(input) + marker
  {
    var s := Stem(input);
    StemChars(input);
    var name := s + suffix;
    assert name == (s + marker) + ['.'] + ext;
    assert '/' !in name;
    assert |s| > 0 ==> name[0] == s[0];
    JoinThenLastPart(dir, name);
    assert '.' !in s + marker;
    FirstPartBefore(s + marker, '.', ext);
  }

  /** Two inputs get the same output volume exactly when their stems agree. */
  lemma OutputFileCollision(p: string, q: string)
    ensures OutputFile(p) == OutputFile(q) <==> Stem(p) == Stem(q)
  {
    JoinStem(OutputDir, p, OutputSuffix);
    JoinStem(OutputDir, q, OutputSuffix);
    var x, y := OutputFile(p), OutputFile(q);
    if x == y {
      var n := |OutputDir| + 1;
      assert |Stem(p)| == |Stem(q)|;
      assert Stem(p) == x[n..n + |Stem(p)|];
      assert Stem(q) == y[n..n + |Stem(q)|];
    }
  }

  /** `a.nii.gz` and `a.b.nii` both have stem `a`, so they collide on the
      same output volume. */
  lemma StemCollisionExample()
    ensures Stem("a.nii.gz") == Stem("a.b.nii") == "a"
    ensures OutputFile("a.nii.gz") == OutputFile("a.b.nii")
  {
    StemOfName("a", "nii.gz");
    StemOfName("a", "b.nii");
    OutputFileCollision("a.nii.gz", "a.b.nii");
  }

  /** The stem of a bare file name is its text before the first `.`. */
  lemma StemOfName(stem: string, rest: string)
    requires '/' !in stem && '/' !in rest && '.' !in stem
    ensures Stem(stem + "." + rest) == stem
  {
    var name := stem + "." + rest;
    assert name == stem + ['.'] + rest;
    assert '/' !in name;
    FirstPartNoSeparator(name, '/');
    FirstPartBefore(stem, '.', rest);
  }

  /** The listing entries that line 152 keeps: those containing `_mask`,
      in listing order. */
  function SelectMasks(listing: seq<string>): seq<string>
  {
    if |listing| == 0 then []
    else (if Contains(listing[0], MaskMarker) then [listing[0]] else []) + SelectMasks(listing[1..])
  }

  /** Lines 152-153: the selected entries, each joined onto `output_files/`. */
  function MaskFiles(listing: seq<string>): seq<string>
  {
    var names := SelectMasks(listing);
    seq(|names|, i requires 0 <= i < |names| => PathJoin("output_files/", names[i]))
  }

  /** `a` is obtained from `b` by deleting elements: it keeps `b`'s order. */
  predicate IsSubsequence<T(==)>(a: seq<T>, b: seq<T>)
    decreases |b|
  {
    |a| == 0 || (|b| > 0 && ((a[0] == b[0] && IsSubsequence(a[1..], b[1..])) || IsSubsequence(a, b[1..])))
  }

  /** The mask selection keeps exactly the entries that contain `_mask`
      (no other entry is selected), each as often as the listing holds it,
      and keeps them in listing order. */
  lemma {:induction false} SelectMasksSpec(listing: seq<string>)
    ensures forall f :: f in SelectMasks(listing) <==> f in listing && Contains(f, MaskMarker)
    ensures IsSubsequence(SelectMasks(listing), listing)
    ensures forall f :: multiset(SelectMasks(listing))[f] == if Contains(f, MaskMarker) then multiset(listing)[f] else 0
    decreases |listing|
  {
    if |listing| > 0 {
      var head, tail := listing[0], listing[1..];
      SelectMasksSpec(tail);
      var rest := SelectMasks(tail);
      assert listing == [head] + tail;
      if Contains(head, MaskMarker) {
        var r := [head] + rest;
        assert SelectMasks(listing) == r;
        assert r[0] == head && r[1..] == rest;
      } else {
        assert SelectMasks(listing) == rest;
      }
    }
  }

  /** Each mask path is `output_files/` followed directly by a selected
      entry: the directory's own `/` is not doubled. */
  lemma MaskFilesSpec(listing: seq<string>)
    requires forall i :: 0 <= i < |listing| ==> '/' !in listing[i]
    ensures var names := SelectMasks(listing);
      |MaskFiles(listing)| == |names| &&
      forall i :: 0 <= i < |names| ==> MaskFiles(listing)[i] == "output_files/" + names[i]
  {
    var names := SelectMasks(listing);
    SelectMasksSpec(listing);
    forall i | 0 <= i < |names| ensures MaskFiles(listing)[i] == "output_files/" + names[i] {
      assert names[i] in listing;
      if |names[i]| > 0 {
        assert names[i][0] in names[i];
      }
      JoinRelative("output_files/", names[i]);
    }
  }

  /** As written, the `_mask` test also selects a scan's own output volume
      when the scan's stem contains `_mask` (for example `sub_mask01.nii.gz`),
      so line 155 deletes it before registration reads it. */
  lemma MaskFilterSelectsOutput(input: string)
    requires Contains(Stem(input), MaskMarker)
    ensures Contains(LastPart(OutputFile(input), '/'), MaskMarker)
    ensures SelectMasks([LastPart(OutputFile(input), '/')]) == [LastPart(OutputFile(input), '/')]
  {
    StemChars(input);
    var name := Stem(input) + OutputSuffix;
    assert '/' !in name;
    JoinThenLastPart(OutputDir, name);
    ContainsExtend(Stem(input), OutputSuffix, MaskMarker);
  }

  const BetMaskSuffix := "_mask.nii.gz"

  /** The name of a mask BET writes next to an output volume. */
  predicate IsBetMask(name: string)
  {
    |name| >= |BetMaskSuffix| && name[|name| - |BetMaskSuffix|..] == BetMaskSuffix
  }

  /** The intended selection: entries that are BET masks. */
  function SelectBetMasks(listing: seq<string>): seq<string>
  {
    if |listing| == 0 then []
    else (if IsBetMask(listing[0]) then [listing[0]] else []) + SelectBetMasks(listing[1..])
  }

  /** The intended selection keeps exactly the BET masks, each as often as
      the listing holds it, in listing order. */
  lemma {:induction false} SelectBetMasksSpec(listing: seq<string>)
    ensures forall f :: f in SelectBetMasks(listing) <==> f in listing && IsBetMask(f)
    ensures IsSubsequence(SelectBetMasks(listing), listing)
    ensures forall f :: multiset(SelectBetMasks(listing))[f] == if IsBetMask(f) then multiset(listing)[f] else 0
    decreases |listing|
  {
    if |listing| > 0 {
      var head, tail := listing[0], listing[1..];
      SelectBetMasksSpec(tail);
      var rest := SelectBetMasks(tail);
      assert listing == [head] + tail;
      if IsBetMask(head) {
        var r := [head] + rest;
        assert SelectBetMasks(listing) == r;
        assert r[0] == head && r[1..] == rest;
      } else {
        assert SelectBetMasks(listing) == rest;
      }
    }
  }

  /** The intended test never takes a scan's output volume, whatever its
      stem, and does take the mask BET writes beside it. */
  lemma BetMaskSeparatesOutputs(input: string)
    ensures !IsBetMask(LastPart(OutputFile(input), '/'))
    ensures IsBetMask(Stem(input) + "_final" + BetMaskSuffix)
  {
    StemChars(input);
    var name := Stem(input) + OutputSuffix;
    assert '/' !in name;
    JoinThenLastPart(OutputDir, name);
    assert name[|name| - |BetMaskSuffix|] == 'f';
    var mask := Stem(input) + "_final" + BetMaskSuffix;
    assert mask[|mask| - |BetMaskSuffix|..] == BetMaskSuffix;
  }
}
