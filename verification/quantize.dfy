/** The final stages of every kernel filter: numpy's `astype(np.uint8)` cast
    of the filled buffer, and the tonal inversion of an 8-bit image. */
module Quantization {
  import opened Grid

  /** An unsigned 8-bit pixel. */
  type Byte = b: int | 0 <= b < 256

  /** How a value at or above 256 is narrowed to 8 bits. numpy leaves this
      to the platform's float-to-integer conversion; the two behaviours
      met in practice are modelled, and both agree below 256. */
  datatype CastPolicy = Wrap | Saturate

  /** Every entry is at least zero, as the clamped correlation buffer is. */
  predicate NonNegative(g: seq<seq<real>>) {
    forall i, j :: 0 <= i < |g| && 0 <= j < |g[i]| ==> g[i][j] >= 0.0
  }

  /** The cast of one non-negative value: the fractional part is truncated,
      never rounded. */
  function CastU8(policy: CastPolicy, v: real): (b: Byte)
    requires v >= 0.0
    ensures v < 256.0 ==> b as real <= v < b as real + 1.0
    ensures v >= 256.0 && policy.Saturate? ==> b == 255
    ensures v >= 256.0 && policy.Wrap? ==> (v.Floor - b) % 256 == 0
  {
    var n := v.Floor;
    match policy
    case Wrap => n % 256
    case Saturate => if n > 255 then 255 else n
  }

  /** An integral pixel value in 0..255 survives the cast unchanged, under
      either policy. */
  lemma CastKeepsBytes(policy: CastPolicy, n: Byte)
    ensures CastU8(policy, n as real) == n
  {
  }

  /** Truncation, not rounding: 254.9 becomes 254. */
  lemma CastTruncates(policy: CastPolicy)
    ensures CastU8(policy, 254.9) == 254
  {
  }

  /** The whole-buffer cast, applied once the buffer has been filled. */
  function Quantize(policy: CastPolicy, buf: seq<seq<real>>): (q: seq<seq<Byte>>)
    requires IsRect(buf) && NonNegative(buf)
    ensures IsGrid(q, |buf|, Width(buf))
    ensures forall i, j :: 0 <= i < |buf| && 0 <= j < Width(buf) && buf[i][j] < 256.0 ==>
              q[i][j] as real <= buf[i][j] < q[i][j] as real + 1.0
  {
    seq(|buf|, i requires 0 <= i < |buf| =>
      seq(Width(buf), j requires 0 <= j < Width(buf) => CastU8(policy, buf[i][j])))
  }

  /** The photographic negative of an 8-bit image: each pixel and its image
      add up to 255. */
  function Invert(img: seq<seq<Byte>>): (r: seq<seq<Byte>>)
    requires IsRect(img)
    ensures IsGrid(r, |img|, Width(img))
    ensures forall i, j :: 0 <= i < |img| && 0 <= j < Width(img) ==> r[i][j] as int + img[i][j] as int == 255
  {
    seq(|img|, i requires 0 <= i < |img| =>
      seq(Width(img), j requires 0 <= j < Width(img) => 255 - img[i][j]))
  }

  /** Inverting twice gives back the image it started from. */
  lemma InvertTwice(img: seq<seq<Byte>>)
    requires IsRect(img)
    ensures IsRect(Invert(img)) && Invert(Invert(img)) == img
  {
    var once := Invert(img);
    var twice := Invert(once);
    forall i | 0 <= i < |img|
      ensures twice[i] == img[i]
    {
      assert forall j :: 0 <= j < Width(img) ==> twice[i][j] == img[i][j];
    }
  }
}
