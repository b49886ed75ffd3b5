/** `anatomical_views_extraction`: the scan identifier taken from the
    output volume's path, the mid-volume axial, coronal and sagittal planes
    (the last two flipped upside down) and the paths they are saved under.
    A volume is the voxel array as numpy holds it, indexed [i][j][k] along
    its three axes; a plane is a sequence of rows. */
module Views {
  import opened Wrappers
  import opened PyStr
  import Naming

  datatype Shape = Shape(d0: nat, d1: nat, d2: nat)

  /** A numpy 3-d array: `voxels` is a box of the given shape. */
  datatype Volume<T> = Volume(shape: Shape, voxels: seq<seq<seq<T>>>)
  {
    ghost predicate Valid()
    {
      |voxels| == shape.d0 &&
      (forall i :: 0 <= i < shape.d0 ==> |voxels[i]| == shape.d1) &&
      (forall i, j :: 0 <= i < shape.d0 && 0 <= j < shape.d1 ==> |voxels[i][j]| == shape.d2)
    }
  }

  type Plane<T> = seq<seq<T>>

  datatype ViewSet<T> = ViewSet(axial: Plane<T>, coronal: Plane<T>, sagittal: Plane<T>)

  /** An axis of length zero: the plane cannot be taken or resized. */
  datatype ViewError = EmptyAxis

  /** Line 95: `np.asarray(shape) // 2`, the midpoint index of every axis. */
  function Midpoint(s: Shape): (m: Shape)
    ensures 2 * m.d0 <= s.d0 <= 2 * m.d0 + 1
    ensures 2 * m.d1 <= s.d1 <= 2 * m.d1 + 1
    ensures 2 * m.d2 <= s.d2 <= 2 * m.d2 + 1
    ensures s.d0 > 0 ==> m.d0 < s.d0
    ensures s.d1 > 0 ==> m.d1 < s.d1
    ensures s.d2 > 0 ==> m.d2 < s.d2
  {
    Shape(s.d0 / 2, s.d1 / 2, s.d2 / 2)
  }

  /** `cv2.flip(p, 0)`: the rows in reverse order. */
  function Flip<T>(p: Plane<T>): Plane<T>
  {
    seq(|p|, r requires 0 <= r < |p| => p[|p| - 1 - r])
  }

  /** Flipping twice restores the plane. */
  lemma FlipFlip<T>(p: Plane<T>)
    ensures Flip(Flip(p)) == p
  {
    var q := Flip(Flip(p));
    assert |q| == |p|;
    forall r | 0 <= r < |p| ensures q[r] == p[r] {
      assert Flip(p)[|p| - 1 - r] == p[r];
    }
  }

  /** `V[:, j, :]`: row i is `V[i][j]`. */
  function FixSecond<T>(v: Volume<T>, j: nat): Plane<T>
    requires v.Valid() && j < v.shape.d1
  {
    seq(v.shape.d0, i requires 0 <= i < v.shape.d0 => v.voxels[i][j])
  }

  /** `V[:, :, k]`: row i is `V[i][0][k], ..., V[i][d1-1][k]`. */
  function FixThird<T>(v: Volume<T>, k: nat): Plane<T>
    requires v.Valid() && k < v.shape.d2
  {
    seq(v.shape.d0, i requires 0 <= i < v.shape.d0 =>
      seq(v.shape.d1, j requires 0 <= j < v.shape.d1 => v.voxels[i][j][k]))
  }

  /** Lines 95-106 before resizing: the three mid-volume planes. When the
      first axis is empty, indexing it at its midpoint 0 raises `IndexError`;
      when the second or third is, the axial plane is empty and `cv2.resize`
      rejects it at line 98. */
  function ExtractViews<T>(v: Volume<T>): (r: Result<ViewSet<T>, ViewError>)
    requires v.Valid()
    ensures r.Ok? <==> v.shape.d0 > 0 && v.shape.d1 > 0 && v.shape.d2 > 0
    ensures r.Ok? ==>
      var d0, d1, d2 := v.shape.d0, v.shape.d1, v.shape.d2;
      var m := Midpoint(v.shape);
      |r.value.axial| == d1 && |r.value.coronal| == d0 && |r.value.sagittal| == d0 &&
      (forall a, b :: 0 <= a < d1 && 0 <= b < d2 ==>
        |r.value.axial[a]| == d2 && r.value.axial[a][b] == v.voxels[m.d0][a][b]) &&
      (forall a, b :: 0 <= a < d0 && 0 <= b < d2 ==>
        |r.value.coronal[a]| == d2 && r.value.coronal[a][b] == v.voxels[d0 - 1 - a][m.d1][b]) &&
      (forall a, b :: 0 <= a < d0 && 0 <= b < d1 ==>
        |r.value.sagittal[a]| == d1 && r.value.sagittal[a][b] == v.voxels[d0 - 1 - a][b][m.d2])
  {
    if v.shape.d0 == 0 || v.shape.d1 == 0 || v.shape.d2 == 0 then Err(EmptyAxis)
    else
      var m := Midpoint(v.shape);
      Ok(ViewSet(v.voxels[m.d0], Flip(FixSecond(v, m.d1)), Flip(FixThird(v, m.d2))))
  }

  /** Flipping the coronal and sagittal views back gives the plain
      mid-volume slices `V[:, m1, :]` and `V[:, :, m2]`. */
  lemma ViewsUnflipped<T>(v: Volume<T>)
    requires v.Valid() && ExtractViews(v).Ok?
    ensures Flip(ExtractViews(v).value.coronal) == FixSecond(v, Midpoint(v.shape).d1)
    ensures Flip(ExtractViews(v).value.sagittal) == FixThird(v, Midpoint(v.shape).d2)
  {
    FlipFlip(FixSecond(v, Midpoint(v.shape).d1));
    FlipFlip(FixThird(v, Midpoint(v.shape).d2));
  }

  const FinalMarker := "_final"
  const ViewsDir := "anatomical_views"

  /** Lines 88-90: the scan identifier, the file name cut at the first `.`
      with every `_final` removed. */
  function FileId(path: string): string
  {
    Replace(Naming.Stem(path), FinalMarker, "")
  }

  /** Round trip: the identifier recovered from a scan's output volume is
      the scan's stem, unless the stem itself contains `_final`. */
  lemma FileIdRoundTrip(input: string)
    requires !Contains(Naming.Stem(input), FinalMarker)
    ensures FileId(Naming.OutputFile(input)) == Naming.Stem(input)
  {
    var out := Naming.OutputFile(input);
    Naming.OutputStem(input);
    RemoveFinal(Naming.Stem(input));
  }

  /** `_final` cannot overlap itself, so removing it from `stem + "_final"`
      strips exactly the appended copy. */
  lemma RemoveFinal(stem: string)
    requires !Contains(stem, FinalMarker)
    ensures Replace(stem + FinalMarker, FinalMarker, "") == stem
  {
    assert FinalMarker[0] !in FinalMarker[1..];
    RemoveAppended(stem, FinalMarker);
  }

  /** Identifiers hold no `/`. */
  lemma FileIdChars(path: string)
    ensures '/' !in FileId(path)
  {
    Naming.StemChars(path);
    ReplaceChars(Naming.Stem(path), FinalMarker, "", '/');
  }

  datatype ViewPaths = ViewPaths(dir: string, axial: string, coronal: string, sagittal: string)

  /** Lines 108-115: the per-scan directory and the three image paths. */
  function SavePaths(fileId: string): ViewPaths
  {
    var dir := PathJoin(ViewsDir, fileId);
    ViewPaths(dir,
      PathJoin(dir, fileId + "_axial.png"),
      PathJoin(dir, fileId + "_coronal.png"),
      PathJoin(dir, fileId + "_sagittal.png"))
  }

  /** Every image of a scan goes to `anatomical_views/<id>/<id>_<view>.png`.
      An empty identifier leaves the directory `anatomical_views/`, whose
      `/` is reused, so the images land at `anatomical_views/_<view>.png`. */
  lemma SavePathsSpec(id: string)
    requires '/' !in id
    ensures var p := SavePaths(id);
      var sep := if |id| > 0 then "/" else "";
      p.dir == ViewsDir + "/" + id &&
      p.axial == p.dir + sep + id + "_axial.png" &&
      p.coronal == p.dir + sep + id + "_coronal.png" &&
      p.sagittal == p.dir + sep + id + "_sagittal.png"
  {
    if |id| > 0 {
      assert id[0] in id;
    }
    JoinRelative(ViewsDir, id);
    var dir := PathJoin(ViewsDir, id);
    if |id| > 0 {
      assert dir[|dir| - 1] == id[|id| - 1] && id[|id| - 1] in id;
    }
    ImagePath(dir, id, "_axial.png");
    ImagePath(dir, id, "_coronal.png");
    ImagePath(dir, id, "_sagittal.png");
  }

  lemma ImagePath(dir: string, id: string, suffix: string)
    requires |dir| > 0 && '/' !in id && |suffix| > 0 && suffix[0] != '/'
    ensures dir[|dir| - 1] == '/' ==> PathJoin(dir, id + suffix) == dir + id + suffix
    ensures dir[|dir| - 1] != '/' ==> PathJoin(dir, id + suffix) == dir + "/" + id + suffix
  {
    if |id| > 0 {
      assert id[0] in id;
    }
    JoinRelative(dir, id + suffix);
  }
}
