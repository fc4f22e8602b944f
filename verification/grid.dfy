/** Rectangular two-dimensional buffers of reals (the model of a 2-D numpy
    array) and the few whole-buffer operations the filters use. */
module Grid {

  /** `g` has exactly `h` rows, each of exactly `w` entries. */
  predicate IsGrid<T>(g: seq<seq<T>>, h: nat, w: nat) {
    |g| == h && forall i :: 0 <= i < h ==> |g[i]| == w
  }

  /** The number of columns; an array with no rows is taken to have none. */
  function Width<T>(g: seq<seq<T>>): nat {
    if |g| == 0 then 0 else |g[0]|
  }

  /** All rows have the same length, as in any numpy 2-D array. */
  predicate IsRect<T>(g: seq<seq<T>>) {
    IsGrid(g, |g|, Width(g))
  }

  /** Every entry of `g` equals `c`. */
  predicate IsConstant(g: seq<seq<real>>, c: real) {
    forall i, j :: 0 <= i < |g| && 0 <= j < |g[i]| ==> g[i][j] == c
  }

  /** The `h` by `w` buffer every entry of which is `c`. */
  function Filled<T>(h: nat, w: nat, c: T): (g: seq<seq<T>>)
    ensures IsGrid(g, h, w)
    ensures forall i, j :: 0 <= i < h && 0 <= j < w ==> g[i][j] == c
  {
    seq(h, _ => seq(w, _ => c))
  }

  /** The sum of a row. */
  function RowSum(r: seq<real>): real {
    if |r| == 0 then 0.0 else r[0] + RowSum(r[1..])
  }

  /** The sum of every entry, as numpy's `ndarray.sum()` with no axis. */
  function Total(g: seq<seq<real>>): real {
    if |g| == 0 then 0.0 else RowSum(g[0]) + Total(g[1..])
  }

  function ScaleRow(c: real, r: seq<real>): (s: seq<real>)
    ensures |s| == |r|
    ensures forall j :: 0 <= j < |r| ==> s[j] == c * r[j]
  {
    seq(|r|, j requires 0 <= j < |r| => c * r[j])
  }

  /** Every entry multiplied by `c`. */
  function Scale(c: real, g: seq<seq<real>>): (s: seq<seq<real>>)
    ensures |s| == |g|
    ensures forall i :: 0 <= i < |g| ==> s[i] == ScaleRow(c, g[i])
  {
    seq(|g|, i requires 0 <= i < |g| => ScaleRow(c, g[i]))
  }

  /** The elementwise product of two buffers of the same shape, as numpy's
      `a * b` on equal shapes. */
  function Hadamard(a: seq<seq<real>>, b: seq<seq<real>>): (p: seq<seq<real>>)
    requires IsGrid(b, |a|, Width(a)) && IsRect(a)
    ensures IsGrid(p, |a|, Width(a))
    ensures forall i, j :: 0 <= i < |a| && 0 <= j < Width(a) ==> p[i][j] == a[i][j] * b[i][j]
  {
    seq(|a|, i requires 0 <= i < |a| => seq(Width(a), j requires 0 <= j < Width(a) => a[i][j] * b[i][j]))
  }

  lemma {:induction false} RowSumScale(c: real, r: seq<real>)
    ensures RowSum(ScaleRow(c, r)) == c * RowSum(r)
    decreases |r|
  {
    if |r| > 0 {
      var s, t := ScaleRow(c, r), ScaleRow(c, r[1..]);
      forall j | 0 <= j < |r| - 1
        ensures s[1..][j] == t[j]
      {
        assert s[1..][j] == s[j + 1] == c * r[j + 1] == c * r[1..][j];
      }
      assert s[1..] == t;
      RowSumScale(c, r[1..]);
    }
  }

  /** Summing commutes with scaling: the sum of `c * g` is `c` times the sum of `g`. */
  lemma {:induction false} TotalScale(c: real, g: seq<seq<real>>)
    ensures Total(Scale(c, g)) == c * Total(g)
    decreases |g|
  {
    if |g| > 0 {
      assert Scale(c, g)[1..] == Scale(c, g[1..]);
      RowSumScale(c, g[0]);
      TotalScale(c, g[1..]);
    }
  }

  /** The sum of a three-element row, written out. */
  lemma RowSum3(r: seq<real>)
    requires |r| == 3
    ensures RowSum(r) == r[0] + r[1] + r[2]
  {
    assert RowSum(r[2..]) == r[2] by {
      assert r[2..][1..] == [];
    }
    assert r[1..][1..] == r[2..];
    assert RowSum(r[1..]) == r[1] + r[2];
  }

  /** The sum of a 3x3 buffer, written out as its nine entries. */
  lemma Total3(g: seq<seq<real>>)
    requires IsGrid(g, 3, 3)
    ensures Total(g) == g[0][0] + g[0][1] + g[0][2]
                      + g[1][0] + g[1][1] + g[1][2]
                      + g[2][0] + g[2][1] + g[2][2]
  {
    RowSum3(g[0]);
    RowSum3(g[1]);
    RowSum3(g[2]);
    assert Total(g[2..]) == RowSum(g[2]) by {
      assert g[2..][1..] == [];
    }
    assert g[1..][1..] == g[2..];
    assert Total(g[1..]) == RowSum(g[1]) + RowSum(g[2]);
  }
}
