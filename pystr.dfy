/** The Python string operations that the pipeline's path handling is built
    from, over strings as sequences of characters: `str.split` with a
    one-character separator, `sep.join`, the substring test `p in s`,
    `str.replace` and POSIX `os.path.join` with two arguments. */
module PyStr {

  /** `sep.join(parts)`: the parts with one separator between neighbours. */
  function Join(parts: seq<string>, sep: char): string
  {
    if |parts| == 0 then ""
    else if |parts| == 1 then parts[0]
    else parts[0] + [sep] + Join(parts[1..], sep)
  }

  /** `s.split(sep)`: the maximal runs of `s` between separators, left to
      right; an empty string splits into one empty part. Joining the parts
      back with `sep` gives `s` again. */
  function Split(s: string, sep: char): (parts: seq<string>)
    ensures |parts| >= 1
    ensures forall i :: 0 <= i < |parts| ==> sep !in parts[i]
    ensures Join(parts, sep) == s
    decreases |s|
  {
    if |s| == 0 then [""]
    else
      var rest := Split(s[1..], sep);
      if s[0] == sep then
        assert ([""] + rest)[1..] == rest;
        [""] + rest
      else
        var parts := [[s[0]] + rest[0]] + rest[1..];
        assert parts[1..] == rest[1..];
        assert |rest| > 1 ==> Join(rest, sep) == rest[0] + [sep] + Join(rest[1..], sep);
        assert s == [s[0]] + s[1..];
        parts
  }

  /** `s.split(sep)[0]`: everything before the first separator. */
  function FirstPart(s: string, sep: char): (r: string)
    ensures r <= s && sep !in r
    ensures r == s || s[|r|] == sep
  {
    var parts := Split(s, sep);
    JoinStartsWithFirst(parts, sep);
    parts[0]
  }

  /** `s.split(sep)[-1]`: everything after the last separator. */
  function LastPart(s: string, sep: char): (r: string)
    ensures |r| <= |s| && r == s[|s| - |r|..] && sep !in r
    ensures r == s || s[|s| - |r| - 1] == sep
  {
    var parts := Split(s, sep);
    JoinEndsWithLast(parts, sep);
    parts[|parts| - 1]
  }

  lemma {:induction false} JoinStartsWithFirst(parts: seq<string>, sep: char)
    requires |parts| >= 1
    ensures parts[0] <= Join(parts, sep)
    ensures |parts| > 1 ==> |Join(parts, sep)| > |parts[0]| && Join(parts, sep)[|parts[0]|] == sep
  {
  }

  lemma {:induction false} JoinEndsWithLast(parts: seq<string>, sep: char)
    requires |parts| >= 1
    ensures var j, l := Join(parts, sep), parts[|parts| - 1];
      |l| <= |j| && j[|j| - |l|..] == l && (|parts| > 1 ==> |j| > |l| && j[|j| - |l| - 1] == sep)
    decreases |parts|
  {
    if |parts| > 1 {
      JoinEndsWithLast(parts[1..], sep);
    }
  }

  /** Splitting a string that has no separator yields the string alone. */
  lemma {:induction false} SplitNoSeparator(s: string, sep: char)
    requires sep !in s
    ensures Split(s, sep) == [s]
    decreases |s|
  {
    if |s| > 0 {
      SplitNoSeparator(s[1..], sep);
      assert s == [s[0]] + s[1..];
    }
  }

  /** Splitting distributes over a separator placed between two strings. */
  lemma {:induction false} SplitAround(a: string, sep: char, b: string)
    ensures Split(a + [sep] + b, sep) == Split(a, sep) + Split(b, sep)
    decreases |a|
  {
    var s := a + [sep] + b;
    if |a| == 0 {
      assert s[1..] == b;
    } else {
      assert s[1..] == a[1..] + [sep] + b;
      SplitAround(a[1..], sep, b);
    }
  }

  /** Round trip in the other direction: joining parts that hold no
      separator and splitting again gives the same parts back. */
  lemma {:induction false} SplitJoin(parts: seq<string>, sep: char)
    requires |parts| >= 1
    requires forall i :: 0 <= i < |parts| ==> sep !in parts[i]
    ensures Split(Join(parts, sep), sep) == parts
    decreases |parts|
  {
    if |parts| == 1 {
      SplitNoSeparator(parts[0], sep);
    } else {
      SplitNoSeparator(parts[0], sep);
      SplitJoin(parts[1..], sep);
      SplitAround(parts[0], sep, Join(parts[1..], sep));
      assert [parts[0]] + parts[1..] == parts;
    }
  }

  /** The last component after a separator is the text that follows it. */
  lemma LastPartAfter(a: string, sep: char, b: string)
    requires sep !in b
    ensures LastPart(a + [sep] + b, sep) == b
  {
    SplitAround(a, sep, b);
    SplitNoSeparator(b, sep);
  }

  /** The first part before a separator is the text that precedes it. */
  lemma FirstPartBefore(a: string, sep: char, b: string)
    requires sep !in a
    ensures FirstPart(a + [sep] + b, sep) == a
  {
    SplitAround(a, sep, b);
    SplitNoSeparator(a, sep);
  }

  lemma FirstPartNoSeparator(s: string, sep: char)
    requires sep !in s
    ensures FirstPart(s, sep) == s && LastPart(s, sep) == s
  {
    SplitNoSeparator(s, sep);
  }

  /** Python's `p in s` on strings: `p` occurs in `s` at some position. */
  predicate Contains(s: string, p: string)
    decreases |s|
  {
    p <= s || (|s| > 0 && Contains(s[1..], p))
  }

  /** `p` occurs in `s` starting at index `i`. */
  predicate OccursAt(s: string, p: string, i: int)
  {
    0 <= i <= |s| - |p| && s[i..i + |p|] == p
  }

  /** `Contains` is exactly "occurs at some index". */
  lemma {:induction false} ContainsAt(s: string, p: string)
    ensures Contains(s, p) <==> exists i :: OccursAt(s, p, i)
    decreases |s|
  {
    if p <= s {
      assert OccursAt(s, p, 0);
    }
    if |s| > 0 {
      ContainsAt(s[1..], p);
      if Contains(s[1..], p) {
        var i :| OccursAt(s[1..], p, i);
        assert OccursAt(s, p, i + 1);
      }
      if i :| OccursAt(s, p, i) && i > 0 {
        assert OccursAt(s[1..], p, i - 1);
      }
    }
  }

  /** An occurrence in `s` is still an occurrence once text is appended. */
  lemma {:induction false} ContainsExtend(s: string, t: string, p: string)
    requires Contains(s, p)
    ensures Contains(s + t, p)
    decreases |s|
  {
    if !(p <= s) {
      assert (s + t)[1..] == s[1..] + t;
      ContainsExtend(s[1..], t, p);
    }
  }

  /** `s.replace(pat, rep)`: every non-overlapping occurrence of `pat`,
      found left to right, replaced by `rep`; an empty `pat` inserts `rep`
      before every character and at the end. */
  function Replace(s: string, pat: string, rep: string): string
    decreases |s|
  {
    if |pat| == 0 then
      if |s| == 0 then rep else rep + [s[0]] + Replace(s[1..], pat, rep)
    else if |s| < |pat| then s
    else if s[..|pat|] == pat then rep + Replace(s[|pat|..], pat, rep)
    else [s[0]] + Replace(s[1..], pat, rep)
  }

  /** Every character of a replacement result comes from `s` or `rep`. */
  lemma {:induction false} ReplaceChars(s: string, pat: string, rep: string, c: char)
    requires c !in s && c !in rep
    ensures c !in Replace(s, pat, rep)
    decreases |s|
  {
    if |s| > 0 {
      ReplaceChars(s[1..], pat, rep, c);
      if |pat| > 0 && |s| >= |pat| {
        ReplaceChars(s[|pat|..], pat, rep, c);
      }
    }
  }

  /** Replacing a pattern that does not occur changes nothing. */
  lemma {:induction false} ReplaceAbsent(s: string, pat: string, rep: string)
    requires |pat| > 0 && !Contains(s, pat)
    ensures Replace(s, pat, rep) == s
    decreases |s|
  {
    if |s| >= |pat| {
      ReplaceAbsent(s[1..], pat, rep);
      assert s == [s[0]] + s[1..];
    }
  }

  /** A pattern whose first character does not recur in it cannot overlap
      itself; removing it from `s + pat`, where `s` does not hold it, strips
      exactly the appended copy. */
  lemma {:induction false} RemoveAppended(s: string, pat: string)
    requires |pat| > 0 && pat[0] !in pat[1..]
    requires !Contains(s, pat)
    ensures Replace(s + pat, pat, "") == s
    decreases |s|
  {
    var t := s + pat;
    if |s| == 0 {
      assert t == pat && t[|pat|..] == [];
    } else {
      if |s| < |pat| {
        NoSelfOverlap(pat, |s|);
        assert t[..|pat|][|s|] == pat[0] != pat[|s|];
      } else {
        assert t[..|pat|] == s[..|pat|];
      }
      RemoveAppended(s[1..], pat);
      assert t[1..] == s[1..] + pat;
      assert s == [s[0]] + s[1..];
    }
  }

  lemma NoSelfOverlap(pat: string, k: int)
    requires |pat| > 0 && pat[0] !in pat[1..] && 0 < k < |pat|
    ensures pat[k] != pat[0]
  {
    assert pat[k] == pat[1..][k - 1];
  }

  /** `os.path.join(a, b)` on POSIX: an absolute `b` replaces `a`;
      otherwise a `/` is inserted only when `a` is non-empty and does not
      already end in one. */
  function PathJoin(a: string, b: string): string
  {
    if |b| > 0 && b[0] == '/' then b
    else if |a| == 0 || a[|a| - 1] == '/' then a + b
    else a + "/" + b
  }

  /** Joining a name without `/` onto any directory and taking the last
      component gives the name back. */
  lemma JoinThenLastPart(dir: string, name: string)
    requires '/' !in name
    ensures LastPart(PathJoin(dir, name), '/') == name
  {
    if |dir| == 0 {
      FirstPartNoSeparator(name, '/');
    } else if dir[|dir| - 1] == '/' {
      var d := dir[..|dir| - 1];
      assert dir + name == d + ['/'] + name;
      LastPartAfter(d, '/', name);
    } else {
      assert dir + "/" + name == dir + ['/'] + name;
      LastPartAfter(dir, '/', name);
    }
  }

  /** A relative name is joined with exactly one `/` between directory and
      name: the directory's own trailing `/` is reused, never doubled. */
  lemma JoinRelative(dir: string, name: string)
    requires |dir| > 0 && (|name| == 0 || name[0] != '/')
    ensures dir[|dir| - 1] == '/' ==> PathJoin(dir, name) == dir + name
    ensures dir[|dir| - 1] != '/' ==> PathJoin(dir, name) == dir + "/" + name
  {
  }
}
