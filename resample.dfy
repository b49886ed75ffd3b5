/** The output grid size that `resample_image` asks SimpleITK for: per axis,
    the original extent in millimetres divided by the new spacing, rounded
    with numpy's round-half-to-even. Spacings are modelled as exact reals. */
module Resample {
  import opened Wrappers

  datatype ResampleError = ZeroDivision

  /** `n` is within one half of `x`, and even when exactly one half away. */
  predicate Nearest(n: int, x: real)
  {
    x - 0.5 <= n as real <= x + 0.5 &&
    ((n as real == x - 0.5 || n as real == x + 0.5) ==> n % 2 == 0)
  }

  /** `np.round` on a scalar: the nearest integer, ties going to the even one. */
  function RoundHalfEven(x: real): (n: int)
    ensures Nearest(n, x)
  {
    var f := x.Floor;
    var d := x - f as real;
    if d < 0.5 then f
    else if d > 0.5 then f + 1
    else if f % 2 == 0 then f
    else f + 1
  }

  /** The two properties of `RoundHalfEven` pin its result down: no other
      integer is within one half of `x` and even on a tie. */
  lemma RoundHalfEvenUnique(x: real, m: int)
    requires Nearest(m, x)
    ensures m == RoundHalfEven(x)
  {
  }

  /** One axis of line 31-33: `int(np.round(size * (spacing / outSpacing)))`. */
  function AxisSize(size: int, spacing: real, outSpacing: real): int
    requires outSpacing != 0.0
  {
    RoundHalfEven(size as real * (spacing / outSpacing))
  }

  /** Lines 30-33: the three axes computed in order; a zero output spacing
      makes Python's float division raise `ZeroDivisionError`. */
  function OutSize(size: seq<int>, spacing: seq<real>, outSpacing: seq<real>): Result<seq<int>, ResampleError>
    requires |size| == 3 && |spacing| == 3 && |outSpacing| == 3
  {
    if outSpacing[0] == 0.0 || outSpacing[1] == 0.0 || outSpacing[2] == 0.0 then Err(ZeroDivision)
    else Ok([AxisSize(size[0], spacing[0], outSpacing[0]),
             AxisSize(size[1], spacing[1], outSpacing[1]),
             AxisSize(size[2], spacing[2], outSpacing[2])])
  }

  /** The out size exists exactly when no output spacing is zero; then each
      axis is the integer nearest to size * (spacing / outSpacing), ties
      going to the even one. */
  lemma OutSizeSpec(size: seq<int>, spacing: seq<real>, outSpacing: seq<real>)
    requires |size| == 3 && |spacing| == 3 && |outSpacing| == 3
    ensures OutSize(size, spacing, outSpacing).Ok? <==> forall i :: 0 <= i < 3 ==> outSpacing[i] != 0.0
    ensures OutSize(size, spacing, outSpacing).Ok? ==>
      var r := OutSize(size, spacing, outSpacing).value;
      |r| == 3 &&
      forall i :: 0 <= i < 3 ==> Nearest(r[i], size[i] as real * (spacing[i] / outSpacing[i]))
  {
    if OutSize(size, spacing, outSpacing).Ok? {
      var r := OutSize(size, spacing, outSpacing).value;
      forall i | 0 <= i < 3 ensures Nearest(r[i], size[i] as real * (spacing[i] / outSpacing[i])) {
        assert r[i] == AxisSize(size[i], spacing[i], outSpacing[i]);
      }
    }
  }

  /** Axis independence: changing another axis's size or spacings leaves
      axis `i` of the out size unchanged. */
  lemma OutSizeAxisIndependent(size: seq<int>, spacing: seq<real>, outSpacing: seq<real>,
                               size': seq<int>, spacing': seq<real>, outSpacing': seq<real>, i: int)
    requires |size| == 3 && |spacing| == 3 && |outSpacing| == 3
    requires |size'| == 3 && |spacing'| == 3 && |outSpacing'| == 3
    requires 0 <= i < 3
    requires OutSize(size, spacing, outSpacing).Ok? && OutSize(size', spacing', outSpacing').Ok?
    requires size[i] == size'[i] && spacing[i] == spacing'[i] && outSpacing[i] == outSpacing'[i]
    ensures OutSize(size, spacing, outSpacing).value[i] == OutSize(size', spacing', outSpacing').value[i]
  {
  }

  /** Resampling to the spacing an image already has keeps its size. */
  lemma {:induction false} OutSizeSameSpacing(size: seq<int>, spacing: seq<real>)
    requires |size| == 3 && |spacing| == 3
    requires forall i :: 0 <= i < 3 ==> spacing[i] != 0.0
    ensures OutSize(size, spacing, spacing) == Ok(size)
  {
    forall i | 0 <= i < 3 ensures AxisSize(size[i], spacing[i], spacing[i]) == size[i] {
      assert size[i] as real * (spacing[i] / spacing[i]) == size[i] as real;
      RoundHalfEvenUnique(size[i] as real, size[i]);
    }
    assert OutSize(size, spacing, spacing).value == size;
  }
}
