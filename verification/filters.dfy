/** The filter catalog of src/filters.py as data: each kernel filter is the
    shared correlation with its own kernel, the 8-bit cast, and an optional
    tonal inversion. The input is the single-channel image each filter
    obtains from its grayscale converter. */
module Filters {
  import opened Grid
  import opened Results
  import opened Correlation
  import opened Quantization

  datatype Filter = LeftSobel | RightSobel | TopSobel | Outline | Sharpen | Emboss

  const LeftSobelKernel: Kernel :=
    [[1.0, 0.0, -1.0],
     [2.0, 0.0, -2.0],
     [1.0, 0.0, -1.0]]

  const RightSobelKernel: Kernel :=
    [[-1.0, 0.0, 1.0],
     [-2.0, 0.0, 2.0],
     [-1.0, 0.0, 1.0]]

  const TopSobelKernel: Kernel :=
    [[1.0, 2.0, 1.0],
     [0.0, 0.0, 0.0],
     [-1.0, -2.0, -1.0]]

  const OutlineKernel: Kernel :=
    [[-1.0, -1.0, -1.0],
     [-1.0, 8.0, -1.0],
     [-1.0, -1.0, -1.0]]

  const SharpenKernel: Kernel :=
    [[0.0, -1.0, 0.0],
     [-1.0, 5.0, -1.0],
     [0.0, -1.0, 0.0]]

  const EmbossKernel: Kernel :=
    [[-2.0, -1.0, 0.0],
     [-1.0, 1.0, 1.0],
     [0.0, 1.0, 2.0]]

  function KernelOf(f: Filter): (k: Kernel)
    ensures IsKernel(k)
  {
    match f
    case LeftSobel => LeftSobelKernel
    case RightSobel => RightSobelKernel
    case TopSobel => TopSobelKernel
    case Outline => OutlineKernel
    case Sharpen => SharpenKernel
    case Emboss => EmbossKernel
  }

  /** The edge detectors invert their output; sharpen and emboss do not. */
  function Inverts(f: Filter): (b: bool)
    ensures b <==> f.LeftSobel? || f.RightSobel? || f.TopSobel? || f.Outline?
  {
    !(f.Sharpen? || f.Emboss?)
  }

  /** One kernel filter applied to a single-channel image: correlate and
      clamp, cast the filled buffer to 8 bits, then invert when the filter
      asks for it. */
  function Apply(f: Filter, policy: CastPolicy, gray: seq<seq<real>>): (r: Result<seq<seq<Byte>>, ShapeError>)
    requires IsRect(gray)
    ensures r.Failure? <==> |gray| < 2 || Width(gray) < 2
    ensures r.Success? ==> IsGrid(r.value, |gray| - 2, Width(gray) - 2)
  {
    var buf :- Correlate(gray, KernelOf(f));
    var q := Quantize(policy, buf);
    Success(if Inverts(f) then Invert(q) else q)
  }

  /** The imperative pipeline of each filter function: fill the buffer with
      the windowing loop, cast it once it is full, then invert if flagged. */
  method RunFilter(f: Filter, policy: CastPolicy, gray: seq<seq<real>>) returns (r: Result<seq<seq<Byte>>, ShapeError>)
    requires IsRect(gray)
    ensures r == Apply(f, policy, gray)
  {
    var filled := CorrelateLoop(gray, KernelOf(f));
    if filled.Failure? {
      return Failure(filled.error);
    }
    var q := Quantize(policy, filled.value);
    if Inverts(f) {
      q := Invert(q);
    }
    r := Success(q);
  }

  /** Output pixel `(ix, iy)` of a filter, end to end: the cast of
      `max(0, sum of gray[ix+i][iy+j] * k[i][j])`, inverted for the edge
      detectors. */
  lemma ApplyPixel(f: Filter, policy: CastPolicy, gray: seq<seq<real>>, ix: nat, iy: nat)
    requires IsRect(gray)
    requires ValidPosition(gray, ix, iy)
    ensures Apply(f, policy, gray).Success?
    ensures var v := CastU8(policy, Clamp(WindowSum(gray, KernelOf(f), ix, iy)));
            Apply(f, policy, gray).value[ix][iy] == if Inverts(f) then 255 - v else v
  {
    CorrelatePixel(gray, KernelOf(f), ix, iy);
  }

  /** The weight sums of the catalog: zero for the edge detectors, one for
      sharpen and emboss. */
  lemma KernelWeights(f: Filter)
    ensures Weight(KernelOf(f)) == if Inverts(f) then 0.0 else 1.0
  {
  }

  /** The right Sobel kernel is the left one negated. */
  lemma RightSobelIsNegatedLeft()
    ensures KernelOf(RightSobel) == Negate(KernelOf(LeftSobel))
  {
    var n := Negate(LeftSobelKernel);
    forall i | 0 <= i < 3
      ensures n[i] == RightSobelKernel[i]
    {
      assert forall j :: 0 <= j < 3 ==> n[i][j] == RightSobelKernel[i][j];
    }
  }

  /** Before the cast, at every position at least one of the left and right
      Sobel outputs is zero, and their difference is the left raw response. */
  lemma SobelOpposites(gray: seq<seq<real>>, ix: nat, iy: nat)
    requires IsRect(gray)
    requires ValidPosition(gray, ix, iy)
    ensures Correlate(gray, KernelOf(LeftSobel)).Success?
    ensures Correlate(gray, KernelOf(RightSobel)).Success?
    ensures var l := Correlate(gray, KernelOf(LeftSobel)).value[ix][iy];
            var r := Correlate(gray, KernelOf(RightSobel)).value[ix][iy];
            (l == 0.0 || r == 0.0) && l - r == Response(gray, KernelOf(LeftSobel), ix, iy)
  {
    RightSobelIsNegatedLeft();
    CorrelateNegatedKernel(gray, KernelOf(LeftSobel), ix, iy);
  }

  /** After cast and inversion, at every position at least one of the left
      and right Sobel images is white (255). */
  lemma SobelPairHasWhite(policy: CastPolicy, gray: seq<seq<real>>, ix: nat, iy: nat)
    requires IsRect(gray)
    requires ValidPosition(gray, ix, iy)
    ensures Apply(LeftSobel, policy, gray).Success? && Apply(RightSobel, policy, gray).Success?
    ensures Apply(LeftSobel, policy, gray).value[ix][iy] == 255
         || Apply(RightSobel, policy, gray).value[ix][iy] == 255
  {
    SobelOpposites(gray, ix, iy);
    CorrelatePixel(gray, KernelOf(LeftSobel), ix, iy);
    CorrelatePixel(gray, KernelOf(RightSobel), ix, iy);
    ApplyPixel(LeftSobel, policy, gray, ix, iy);
    ApplyPixel(RightSobel, policy, gray, ix, iy);
  }

  /** Before the cast, a constant image of value `c` yields all zeros under
      the edge detectors and `max(0, c)` under sharpen and emboss. */
  lemma PreCastOnConstant(f: Filter, gray: seq<seq<real>>, c: real)
    requires IsRect(gray) && IsConstant(gray, c)
    requires |gray| >= 2 && Width(gray) >= 2
    ensures Correlate(gray, KernelOf(f)).Success?
    ensures forall ix, iy :: ValidPosition(gray, ix, iy) ==>
              Correlate(gray, KernelOf(f)).value[ix][iy] == if Inverts(f) then 0.0 else Clamp(c)
  {
    KernelWeights(f);
    CorrelateConstant(gray, KernelOf(f), c);
  }

  /** End to end, a constant 8-bit-range image of value `c` yields all white
      (255) under the edge detectors and the truncated `c` under sharpen and
      emboss. */
  lemma ApplyOnConstant(f: Filter, policy: CastPolicy, gray: seq<seq<real>>, c: real)
    requires IsRect(gray) && IsConstant(gray, c)
    requires |gray| >= 2 && Width(gray) >= 2
    requires 0.0 <= c < 256.0
    ensures Apply(f, policy, gray).Success?
    ensures forall ix, iy :: ValidPosition(gray, ix, iy) ==>
              Apply(f, policy, gray).value[ix][iy] == if Inverts(f) then 255 else c.Floor
  {
    PreCastOnConstant(f, gray, c);
  }

  /** A 5x5 image of value 10 under sharpen gives a 3x3 image of value 10. */
  lemma SharpenFlatFive(policy: CastPolicy)
    ensures Apply(Sharpen, policy, Filled(5, 5, 10.0)) == Success(Filled<Byte>(3, 3, 10))
  {
    var img := Filled(5, 5, 10.0);
    assert IsRect(img) && Width(img) == 5 && IsConstant(img, 10.0);
    ApplyOnConstant(Sharpen, policy, img, 10.0);
    var r := Apply(Sharpen, policy, img);
    var want := Filled<Byte>(3, 3, 10);
    forall i | 0 <= i < 3
      ensures r.value[i] == want[i]
    {
      assert forall j :: 0 <= j < 3 ==> r.value[i][j] == want[i][j];
    }
    assert r.value == want;
    assert r == Success(want);
  }

  /** A 3x3 black image under outline gives one pixel, black before the
      inversion and so white after it. */
  lemma OutlineOnBlackPixel(policy: CastPolicy)
    ensures Correlate(Filled(3, 3, 0.0), KernelOf(Outline)) == Success(Filled(1, 1, 0.0))
    ensures Apply(Outline, policy, Filled(3, 3, 0.0)) == Success(Filled<Byte>(1, 1, 255))
  {
    var img := Filled(3, 3, 0.0);
    assert IsRect(img) && Width(img) == 3 && IsConstant(img, 0.0);
    PreCastOnConstant(Outline, img, 0.0);
    ApplyOnConstant(Outline, policy, img, 0.0);
    var c := Correlate(img, KernelOf(Outline));
    assert c.value[0] == Filled(1, 1, 0.0)[0];
    assert c.value == Filled(1, 1, 0.0);
    var r := Apply(Outline, policy, img);
    assert r.value[0] == Filled<Byte>(1, 1, 255)[0];
    assert r.value == Filled<Byte>(1, 1, 255);
  }

  /** A 2x2 image is not rejected: the output buffer has zero rows. */
  lemma TwoByTwoGivesEmpty(f: Filter, policy: CastPolicy, gray: seq<seq<real>>)
    requires IsGrid(gray, 2, 2)
    ensures Apply(f, policy, gray) == Success([])
  {
  }

  /** A single-row or single-column image is rejected, since the output
      shape would have a negative dimension. */
  lemma ThinImageRejected(f: Filter, policy: CastPolicy, gray: seq<seq<real>>)
    requires IsRect(gray) && (|gray| == 1 || Width(gray) == 1)
    ensures Apply(f, policy, gray).Failure?
    ensures Apply(f, policy, gray).error == NegativeDimension(OutputRows(gray), OutputCols(gray))
  {
  }
}
