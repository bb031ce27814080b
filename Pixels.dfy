/** Shared vocabulary of the image code: RGBA byte buffers, the clamping store of a
    Uint8ClampedArray, JavaScript's Math.round and the special values of JavaScript numbers,
    and the arithmetic that relates flat buffer indices to pixel coordinates. */
module Pixels {

  predicate IsByte(v: int) { 0 <= v <= 255 }

  predicate AllBytes(s: seq<int>) { forall k :: 0 <= k < |s| ==> IsByte(s[k]) }

  /** An RGBA buffer of `width * height` pixels, four bytes per pixel. */
  predicate IsBuffer(s: seq<int>, width: nat, height: nat)
  {
    |s| == 4 * width * height && AllBytes(s)
  }

  /** The alpha bytes (every fourth byte) of `t` equal those of `s`. */
  predicate SameAlpha(s: seq<int>, t: seq<int>)
    requires |s| == |t|
  {
    forall k :: 0 <= k < |s| && k % 4 == 3 ==> t[k] == s[k]
  }

  /** `s` has a single colour: every byte equals the byte of `colour` for its channel. */
  predicate IsUniform(s: seq<int>, colour: seq<int>)
    requires |colour| == 4
  {
    forall k :: 0 <= k < |s| ==> s[k] == colour[k % 4]
  }

  /** Math.min(255, Math.max(0, v)) on an integer; also what a Uint8ClampedArray stores for it. */
  function Clamp(v: int): (r: int)
    ensures IsByte(r)
    ensures IsByte(v) ==> r == v
    ensures v < 0 ==> r == 0
    ensures v > 255 ==> r == 255
  {
    if v < 0 then 0 else if v > 255 then 255 else v
  }

  lemma ClampMonotone(u: int, v: int)
    requires u <= v
    ensures Clamp(u) <= Clamp(v)
  {
  }

  /** JavaScript's Math.round: the nearest integer, halves rounded towards +infinity. */
  function Round(x: real): (r: int)
    ensures r as real - 0.5 <= x < r as real + 0.5
  {
    (x + 0.5).Floor
  }

  lemma RoundMonotone(x: real, y: real)
    requires x <= y
    ensures Round(x) <= Round(y)
  {
  }

  /** A JavaScript number as far as this code can produce one. */
  datatype JsNumber = Finite(value: real) | NaN | PosInfinity | NegInfinity

  /** JavaScript's `n / d` on finite operands. */
  function Divide(n: real, d: real): (r: JsNumber)
    ensures d != 0.0 ==> r == Finite(n / d)
    ensures d == 0.0 ==> (r == NaN <==> n == 0.0)
    ensures d == 0.0 && n < 0.0 ==> r == NegInfinity
    ensures d == 0.0 && n > 0.0 ==> r == PosInfinity
  {
    if d != 0.0 then Finite(n / d)
    else if n == 0.0 then NaN
    else if n < 0.0 then NegInfinity
    else PosInfinity
  }

  /** JavaScript's `x * c` for a positive finite constant `c`. */
  function TimesPositive(x: JsNumber, c: real): (r: JsNumber)
    requires c > 0.0
    ensures x.Finite? ==> r == Finite(x.value * c)
    ensures !x.Finite? ==> r == x
  {
    if x.Finite? then Finite(x.value * c) else x
  }

  /** Math.round on any JavaScript number: special values are returned as they are. */
  function RoundNumber(x: JsNumber): (r: JsNumber)
    ensures x.Finite? ==> r == Finite(Round(x.value) as real)
    ensures !x.Finite? ==> r == x
  {
    match x
    case Finite(v) => Finite(Round(v) as real)
    case _ => x
  }

  /** The byte a Uint8ClampedArray stores for a number that is an integer or a special value:
      NaN becomes 0, the infinities saturate. Meant only for integer-valued finite inputs, which
      is all its callers pass (every value is rounded first): a Uint8ClampedArray rounds a
      non-integer half-to-even, whereas this function would take the floor. */
  function ClampedStore(x: JsNumber): (r: int)
    ensures IsByte(r)
    ensures x == NaN || x == NegInfinity ==> r == 0
    ensures x == PosInfinity ==> r == 255
    ensures x.Finite? && x.value == (x.value.Floor as real) ==> r == Clamp(x.value.Floor)
  {
    match x
    case Finite(v) => Clamp(v.Floor)
    case NaN => 0
    case PosInfinity => 255
    case NegInfinity => 0
  }

  /** JavaScript's `x > c`: false for NaN. */
  predicate Exceeds(x: JsNumber, c: real)
  {
    match x
    case Finite(v) => v > c
    case PosInfinity => true
    case _ => false
  }

  // ---- flat indices and pixel coordinates ----

  /** A pixel `(col, row)` of a `width`-wide image sits at flat pixel index `row * width + col`,
      and division by `width` recovers the coordinates. */
  lemma {:induction false} PixelCoords(width: nat, row: nat, col: nat)
    requires col < width
    ensures (row * width + col) / width == row
    ensures (row * width + col) % width == col
  {
    var p := row * width + col;
    var q, r := p / width, p % width;
    assert p == q * width + r;
    if q > row {
      MulAtLeast(q - row, width);
    } else if q < row {
      MulAtLeast(row - q, width);
    }
  }

  lemma MulAtLeast(a: int, b: nat)
    requires a >= 1
    ensures a * b >= b
  {
    assert a * b == (a - 1) * b + b;
    assert (a - 1) * b >= 0;
  }

  lemma MulMonotone(a: nat, b: nat, c: nat)
    requires a <= b
    ensures a * c <= b * c
  {
    assert b * c == a * c + (b - a) * c;
  }

  /** Byte `c` of pixel `p` sits at `p * 4 + c`. */
  lemma ByteOfPixel(p: int, c: int)
    requires 0 <= c < 4
    ensures (p * 4 + c) / 4 == p && (p * 4 + c) % 4 == c
  {
  }

  /** Any pixel index between `row * width` and `(row + 1) * width` lies on row `row`. */
  lemma PixelOnRow(width: nat, row: nat, p: int)
    requires row * width <= p < row * width + width
    ensures p / width == row && p % width == p - row * width
  {
    PixelCoords(width, row, p - row * width);
  }

  /** A pixel inside a `width` by `height` image has a flat index inside the image. */
  lemma PixelInImage(width: nat, height: nat, col: nat, row: nat)
    requires col < width && row < height
    ensures 0 <= row * width + col < width * height
  {
    assert (height - row - 1) * width >= 0;
    assert height * width == row * width + width + (height - row - 1) * width;
  }

  /** A flat pixel index below `width * height` has row below `height`. */
  lemma RowBelowHeight(width: nat, height: nat, p: nat)
    requires p < width * height
    ensures width > 0 && p / width < height
  {
    var row := p / width;
    assert p == row * width + p % width;
    if row >= height {
      MulMonotone(height, row, width);
    }
  }

  /** A flat pixel index at or past the start of row `row` lies on that row or a later one. */
  lemma RowAtLeast(width: nat, row: nat, p: nat)
    requires width > 0 && row * width <= p
    ensures p / width >= row
  {
    var q := p / width;
    assert p == q * width + p % width;
    if q < row {
      MulMonotone(q + 1, row, width);
    }
  }

  /** The pixel buffer of the program's ImageData: `width`, `height` and a byte array that the
      filters rewrite in place. */
  class ImageData {
    const width: nat
    const height: nat
    const data: array<int>

    ghost predicate Valid()
      reads data
    {
      IsBuffer(data[..], width, height)
    }

    constructor (data: array<int>, width: nat, height: nat)
      ensures this.data == data && this.width == width && this.height == height
    {
      this.data := data;
      this.width := width;
      this.height := height;
    }
  }
}
