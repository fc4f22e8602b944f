/** The valid-mode 3x3 sliding-window correlation shared by every kernel
    filter of src/filters.py: patch extraction, elementwise product with the
    kernel, sum, and clamping of negative responses to zero. */
module Correlation {
  import opened Grid
  import opened Results

  /** A 3x3 matrix of weights; `src/filters.py` writes them as float
      literals. */
  type Kernel = seq<seq<real>>

  predicate IsKernel(k: Kernel) {
    IsGrid(k, 3, 3)
  }

  /** The sum of a kernel's nine weights. */
  function Weight(k: Kernel): (w: real)
    requires IsKernel(k)
    ensures w == k[0][0] + k[0][1] + k[0][2]
               + k[1][0] + k[1][1] + k[1][2]
               + k[2][0] + k[2][1] + k[2][2]
  {
    Total3(k);
    Total(k)
  }

  /** The kernel whose every weight is the negation of `k`'s. */
  function Negate(k: Kernel): (n: Kernel)
    requires IsKernel(k)
    ensures IsKernel(n)
    ensures forall i, j :: 0 <= i < 3 && 0 <= j < 3 ==> n[i][j] == -k[i][j]
  {
    Scale(-1.0, k)
  }

  /** Raised by `np.zeros` when the output shape would be negative. */
  datatype ShapeError = NegativeDimension(rows: int, cols: int)

  /** The output shape `(H - 3 + 1, W - 3 + 1)` of valid-mode correlation. */
  function OutputRows(img: seq<seq<real>>): int { |img| - 2 }
  function OutputCols(img: seq<seq<real>>): int { Width(img) - 2 }

  /** `(ix, iy)` is a coordinate of the valid-mode output. */
  predicate ValidPosition(img: seq<seq<real>>, ix: int, iy: int) {
    0 <= ix < OutputRows(img) && 0 <= iy < OutputCols(img)
  }

  /** The 3x3 slice `img[ix:ix+3, iy:iy+3]`. Its precondition is the
      in-bounds condition: at a valid output coordinate every index `ix+i`,
      `iy+j` the slice reads lies in `img`. */
  function Patch(img: seq<seq<real>>, ix: nat, iy: nat): (p: seq<seq<real>>)
    requires IsRect(img)
    requires ValidPosition(img, ix, iy)
    ensures IsGrid(p, 3, 3)
    ensures forall i, j :: 0 <= i < 3 && 0 <= j < 3 ==> p[i][j] == img[ix + i][iy + j]
  {
    seq(3, i requires 0 <= i < 3 => img[ix + i][iy .. iy + 3])
  }

  /** An independent, written-out statement of the raw response at `(ix, iy)`:
      the nine products `img[ix+i][iy+j] * k[i][j]`, summed. */
  function WindowSum(img: seq<seq<real>>, k: Kernel, ix: nat, iy: nat): real
    requires IsRect(img) && IsKernel(k)
    requires ValidPosition(img, ix, iy)
  {
    img[ix][iy] * k[0][0]     + img[ix][iy + 1] * k[0][1]     + img[ix][iy + 2] * k[0][2]
    + img[ix + 1][iy] * k[1][0] + img[ix + 1][iy + 1] * k[1][1] + img[ix + 1][iy + 2] * k[1][2]
    + img[ix + 2][iy] * k[2][0] + img[ix + 2][iy + 1] * k[2][1] + img[ix + 2][iy + 2] * k[2][2]
  }

  /** The raw correlation response at output position `(ix, iy)`, before
      the clamp: the sum of the elementwise product of the patch and the
      kernel (`h_prod.sum()`). */
  function Response(img: seq<seq<real>>, k: Kernel, ix: nat, iy: nat): real
    requires IsRect(img) && IsKernel(k)
    requires ValidPosition(img, ix, iy)
  {
    Total(Hadamard(Patch(img, ix, iy), k))
  }

  /** The response is the written-out sum of the nine products. */
  lemma ResponseIsWindowSum(img: seq<seq<real>>, k: Kernel, ix: nat, iy: nat)
    requires IsRect(img) && IsKernel(k)
    requires ValidPosition(img, ix, iy)
    ensures Response(img, k, ix, iy) == WindowSum(img, k, ix, iy)
  {
    Total3(Hadamard(Patch(img, ix, iy), k));
  }

  /** `max(0, s)`. */
  function Clamp(s: real): (r: real)
    ensures r >= 0.0 && r >= s
    ensures r == s || r == 0.0
  {
    if s < 0.0 then 0.0 else s
  }

  /** Valid-mode correlation followed by clamping, before the 8-bit cast.
      A negative output dimension is an error (numpy refuses to allocate
      such a buffer); a zero dimension yields an empty buffer. */
  function Correlate(img: seq<seq<real>>, k: Kernel): (r: Result<seq<seq<real>>, ShapeError>)
    requires IsRect(img) && IsKernel(k)
    ensures r.Failure? <==> |img| < 2 || Width(img) < 2
    ensures r.Success? ==> IsGrid(r.value, |img| - 2, Width(img) - 2)
    ensures r.Success? ==> forall ix, iy :: 0 <= ix < |r.value| && 0 <= iy < |r.value[ix]| ==> r.value[ix][iy] >= 0.0
  {
    var rows := OutputRows(img);
    var cols := OutputCols(img);
    if rows < 0 || cols < 0 then
      Failure(NegativeDimension(rows, cols))
    else
      Success(seq(rows, ix requires 0 <= ix < rows =>
                seq(cols, iy requires 0 <= iy < cols => Clamp(Response(img, k, ix, iy)))))
  }

  /** Output pixel `(ix, iy)` is `max(0, sum of img[ix+i][iy+j] * k[i][j])`. */
  lemma CorrelatePixel(img: seq<seq<real>>, k: Kernel, ix: nat, iy: nat)
    requires IsRect(img) && IsKernel(k)
    requires ValidPosition(img, ix, iy)
    ensures Correlate(img, k).Success?
    ensures Correlate(img, k).value[ix][iy] == Clamp(WindowSum(img, k, ix, iy))
  {
    ResponseIsWindowSum(img, k, ix, iy);
  }

  /** Two images of the same shape that agree on the 3x3 window at
      `(ix, iy)` produce the same output pixel there: a pixel depends on
      no other input. */
  lemma CorrelateIsLocal(a: seq<seq<real>>, b: seq<seq<real>>, k: Kernel, ix: nat, iy: nat)
    requires IsRect(a) && IsRect(b) && IsKernel(k)
    requires |a| == |b| && Width(a) == Width(b)
    requires ValidPosition(a, ix, iy)
    requires forall x, y :: ix <= x < ix + 3 && iy <= y < iy + 3 ==> a[x][y] == b[x][y]
    ensures Correlate(a, k).Success? && Correlate(b, k).Success?
    ensures Correlate(a, k).value[ix][iy] == Correlate(b, k).value[ix][iy]
  {
    var pa, pb := Patch(a, ix, iy), Patch(b, ix, iy);
    forall i | 0 <= i < 3
      ensures pa[i] == pb[i]
    {
      assert forall j :: 0 <= j < 3 ==> pa[i][j] == pb[i][j];
    }
    assert pa == pb;
  }

  /** On a window of constant value `c` the response is `c` times the
      kernel's weight sum. */
  lemma ResponseOnConstant(img: seq<seq<real>>, k: Kernel, ix: nat, iy: nat, c: real)
    requires IsRect(img) && IsKernel(k)
    requires ValidPosition(img, ix, iy)
    requires IsConstant(img, c)
    ensures Response(img, k, ix, iy) == c * Weight(k)
  {
    var p := Patch(img, ix, iy);
    var h := Hadamard(p, k);
    forall i | 0 <= i < 3
      ensures h[i] == Scale(c, k)[i]
    {
      assert forall j :: 0 <= j < 3 ==> h[i][j] == c * k[i][j];
    }
    assert h == Scale(c, k);
    TotalScale(c, k);
  }

  /** On an image of constant value `c`, every output pixel is
      `max(0, c * w)` where `w` is the kernel's weight sum. */
  lemma CorrelateConstant(img: seq<seq<real>>, k: Kernel, c: real)
    requires IsRect(img) && IsKernel(k)
    requires IsConstant(img, c)
    requires Correlate(img, k).Success?
    ensures forall ix, iy :: ValidPosition(img, ix, iy) ==>
              Correlate(img, k).value[ix][iy] == Clamp(c * Weight(k))
  {
    forall ix, iy | ValidPosition(img, ix, iy)
      ensures Correlate(img, k).value[ix][iy] == Clamp(c * Weight(k))
    {
      ResponseOnConstant(img, k, ix, iy, c);
    }
  }

  /** Negating the kernel negates the raw response. */
  lemma ResponseNegate(img: seq<seq<real>>, k: Kernel, ix: nat, iy: nat)
    requires IsRect(img) && IsKernel(k)
    requires ValidPosition(img, ix, iy)
    ensures Response(img, Negate(k), ix, iy) == -Response(img, k, ix, iy)
  {
    var p := Patch(img, ix, iy);
    var h := Hadamard(p, k);
    var hn := Hadamard(p, Negate(k));
    forall i | 0 <= i < 3
      ensures hn[i] == Scale(-1.0, h)[i]
    {
      assert forall j :: 0 <= j < 3 ==> hn[i][j] == -1.0 * h[i][j];
    }
    assert hn == Scale(-1.0, h);
    TotalScale(-1.0, h);
  }

  /** Correlating with a kernel and with its negation: at every position one
      of the two clamped outputs is zero, and together they give the absolute
      value of the raw response `s` (their difference is `s` itself). */
  lemma CorrelateNegatedKernel(img: seq<seq<real>>, k: Kernel, ix: nat, iy: nat)
    requires IsRect(img) && IsKernel(k)
    requires ValidPosition(img, ix, iy)
    ensures Correlate(img, k).Success? && Correlate(img, Negate(k)).Success?
    ensures var p := Correlate(img, k).value[ix][iy];
            var n := Correlate(img, Negate(k)).value[ix][iy];
            var s := Response(img, k, ix, iy);
            && (p == 0.0 || n == 0.0)
            && p - n == s
            && p + n == (if s < 0.0 then -s else s)
  {
    ResponseNegate(img, k, ix, iy);
  }

  /** The nested loop of each filter function in `src/filters.py`: allocate
      a zero buffer of the output shape, then fill it position by position
      in row-major order. */
  method CorrelateLoop(img: seq<seq<real>>, k: Kernel) returns (r: Result<seq<seq<real>>, ShapeError>)
    requires IsRect(img) && IsKernel(k)
    ensures r == Correlate(img, k)
  {
    var rows := OutputRows(img);
    var cols := OutputCols(img);
    if rows < 0 || cols < 0 {
      return Failure(NegativeDimension(rows, cols));
    }
    var zeroRow := seq(cols, _ => 0.0);
    var buf := seq(rows, _ => zeroRow);
    var ix := 0;
    while ix < rows
      invariant 0 <= ix <= rows
      invariant IsGrid(buf, rows, cols)
      invariant forall a, b :: 0 <= a < rows && 0 <= b < cols ==>
                  buf[a][b] == (if a < ix then Clamp(Response(img, k, a, b)) else 0.0)
    {
      var iy := 0;
      while iy < cols
        invariant 0 <= iy <= cols
        invariant IsGrid(buf, rows, cols)
        invariant forall a, b :: 0 <= a < rows && 0 <= b < cols ==>
                    buf[a][b] == (if a < ix || (a == ix && b < iy) then Clamp(Response(img, k, a, b)) else 0.0)
      {
        buf := buf[ix := buf[ix][iy := Clamp(Response(img, k, ix, iy))]];
        iy := iy + 1;
      }
      ix := ix + 1;
    }
    var expected := Correlate(img, k).value;
    forall a | 0 <= a < rows
      ensures buf[a] == expected[a]
    {
      assert forall b :: 0 <= b < cols ==> buf[a][b] == expected[a][b];
    }
    assert buf == expected;
    r := Success(buf);
  }
}
