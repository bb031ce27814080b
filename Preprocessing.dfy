/** The pixel work of src/utils/imagePreprocessing.ts: the light enhancer enhanceImageData
    (contrast 1.2 around mid-grey, then the same 3x3 sharpening as the four-stage enhancer, in
    place on the caller's buffer), the `enhanceFaces` gate around it, and the canvas size that
    preprocessImage draws at. */
module Preprocessing {
  import opened Pixels
  import opened Enhancement

  // ===================== contrast around mid-grey =====================

  /** Math.min(255, Math.max(0, Math.round(1.2 * (value - 128) + 128))) */
  function LightContrastValue(v: int): (r: int)
    ensures IsByte(r)
  {
    Clamp(Round(1.2 * (v - 128) as real + 128.0))
  }

  /** The light enhancer's formula `1.2 (v - 128) + 128` and the four-stage enhancer's
      `1.2 v + 128 (1 - 1.2)` are the same number, so both store the same byte. */
  lemma LightContrastAgrees(v: int)
    ensures LightContrastValue(v) == ContrastValue(v, 1.2)
  {
    assert 1.2 * (v - 128) as real + 128.0 == 1.2 * v as real + 128.0 * (1.0 - 1.2);
  }

  /** The byte the contrast loop of enhanceImageData leaves at `k`. */
  function LightContrastAt(s: seq<int>, k: nat): int
    requires k < |s|
  {
    if k % 4 < 3 then LightContrastValue(s[k]) else s[k]
  }

  function LightContrasted(s: seq<int>): (r: seq<int>)
    ensures |r| == |s| && SameAlpha(s, r)
    ensures AllBytes(s) ==> AllBytes(r)
  {
    seq(|s|, k requires 0 <= k < |s| => LightContrastAt(s, k))
  }

  /** The contrast step of enhanceImageData is adjustContrast(data, 1.2). */
  lemma LightContrastedAgrees(s: seq<int>)
    ensures LightContrasted(s) == Contrasted(s, 1.2)
  {
    forall k | 0 <= k < |s|
      ensures LightContrasted(s)[k] == Contrasted(s, 1.2)[k]
    {
      LightContrastAgrees(s[k]);
    }
  }

  /** The four bytes of pixel `p` after the contrast loop. */
  lemma LightContrastedPixel(s: seq<int>, p: nat)
    requires 4 * p + 3 < |s|
    ensures LightContrasted(s)[4 * p] == LightContrastValue(s[4 * p])
    ensures LightContrasted(s)[4 * p + 1] == LightContrastValue(s[4 * p + 1])
    ensures LightContrasted(s)[4 * p + 2] == LightContrastValue(s[4 * p + 2])
    ensures LightContrasted(s)[4 * p + 3] == s[4 * p + 3]
  {
    ByteOfPixel(p, 0);
    ByteOfPixel(p, 1);
    ByteOfPixel(p, 2);
    ByteOfPixel(p, 3);
  }

  /** The channel loop of the contrast step for the pixel at byte `i`. */
  method LightContrastPixel(a: array<int>, ghost s: seq<int>, ghost target: seq<int>, i: nat)
    requires a.Length == |s| == |target| && i + 3 < a.Length
    requires target[i] == LightContrastValue(s[i])
    requires target[i + 1] == LightContrastValue(s[i + 1])
    requires target[i + 2] == LightContrastValue(s[i + 2])
    requires target[i + 3] == s[i + 3]
    requires forall k :: 0 <= k < a.Length ==> a[k] == if k < i then target[k] else s[k]
    modifies a
    ensures forall k :: 0 <= k < a.Length ==> a[k] == if k < i + 4 then target[k] else s[k]
  {
    var j := 0;
    while j < 3
      invariant 0 <= j <= 3
      invariant forall k :: 0 <= k < a.Length ==> a[k] == if k < i + j then target[k] else s[k]
      modifies a
    {
      var value := a[i + j];
      a[i + j] := LightContrastValue(value);
      j := j + 1;
    }
  }

  /** The contrast loop of enhanceImageData: every colour byte through LightContrastValue. */
  method LightContrast(a: array<int>)
    requires a.Length % 4 == 0
    modifies a
    ensures a[..] == LightContrasted(old(a[..]))
  {
    ghost var s := a[..];
    ghost var target := LightContrasted(s);
    ghost var n := a.Length / 4;
    assert a.Length == 4 * n;
    var i := 0;
    ghost var p := 0;
    while i < a.Length
      invariant 0 <= p <= n && i == 4 * p
      invariant forall k :: 0 <= k < a.Length ==> a[k] == if k < i then target[k] else s[k]
      modifies a
    {
      LightContrastedPixel(s, p);
      LightContrastPixel(a, s, target, i);
      i := i + 4;
      p := p + 1;
    }
    assert forall k :: 0 <= k < a.Length ==> a[k] == target[k];
  }

  // ===================== the light enhancer =====================

  /** The buffer enhanceImageData leaves: contrast, then sharpening of the contrasted snapshot.
      No equalization and no median filter. */
  function LightEnhanced(s: seq<int>, w: nat, h: nat): (r: seq<int>)
    requires IsBuffer(s, w, h)
    ensures IsBuffer(r, w, h) && SameAlpha(s, r)
  {
    Sharpened(LightContrasted(s), w, h)
  }

  /** enhanceImageData(imageData): rewrites the caller's buffer in place and hands back the same
      object, width and height unchanged. */
  method EnhanceImageData(img: ImageData) returns (r: ImageData)
    requires img.Valid()
    modifies img.data
    ensures r == img
    ensures img.data[..] == LightEnhanced(old(img.data[..]), img.width, img.height)
    ensures img.Valid()
  {
    assert img.data.Length == 4 * (img.width * img.height);
    LightContrast(img.data);
    SharpenImage(img.data, img.width, img.height);
    r := img;
  }

  /** The light enhancer is the first two stages that enhanceImage shares with it, contrast and
      sharpening, without the histogram equalization before them and the median filter after. */
  lemma LightEnhancedIsContrastThenSharpen(s: seq<int>, w: nat, h: nat)
    requires IsBuffer(s, w, h)
    ensures LightEnhanced(s, w, h) == Sharpened(Contrasted(s, 1.2), w, h)
  {
    LightContrastedAgrees(s);
  }

  /** Pixels on the first and last rows and columns keep their contrasted value. */
  lemma LightEnhancedBorder(s: seq<int>, w: nat, h: nat, x: nat, y: nat, c: nat)
    requires IsBuffer(s, w, h) && x < w && y < h && c < 4
    requires x == 0 || x == w - 1 || y == 0 || y == h - 1
    ensures (y * w + x) * 4 + c < |s|
    ensures LightEnhanced(s, w, h)[(y * w + x) * 4 + c] == LightContrasted(s)[(y * w + x) * 4 + c]
  {
    SharpenKeepsBorder(LightContrasted(s), w, h, x, y, c);
  }

  /** A single-colour image comes out as the single colour with each colour byte contrasted. */
  lemma LightEnhancedSingleColour(s: seq<int>, w: nat, h: nat, colour: seq<int>)
    requires IsBuffer(s, w, h) && |colour| == 4 && IsUniform(s, colour)
    ensures IsUniform(LightEnhanced(s, w, h),
      [LightContrastValue(colour[0]), LightContrastValue(colour[1]), LightContrastValue(colour[2]), colour[3]])
  {
    var out := [LightContrastValue(colour[0]), LightContrastValue(colour[1]), LightContrastValue(colour[2]), colour[3]];
    var c := LightContrasted(s);
    assert IsUniform(c, out);
    if |s| > 0 {
      assert AllBytes(out) by {
        assert s[3] == colour[3];
      }
      SharpenUniformUnchanged(c, w, h, out);
    } else {
      assert LightEnhanced(s, w, h) == [];
    }
  }

  // ===================== preprocessImage =====================

  /** The part of preprocessImage that touches pixels: enhanceImageData when `enhanceFaces` is
      set (the default), nothing otherwise. */
  method EnhanceIfRequested(img: ImageData, enhanceFaces: bool)
    requires img.Valid()
    modifies img.data
    ensures img.data[..] == if enhanceFaces then LightEnhanced(old(img.data[..]), img.width, img.height) else old(img.data[..])
    ensures img.Valid()
  {
    if enhanceFaces {
      var enhanced := EnhanceImageData(img);
    }
  }

  /** The default `maxSize` of preprocessImage: 4 MiB. */
  const DefaultMaxSize: nat := 4 * 1024 * 1024

  /** The square root the model leaves abstract: non-negative, and squaring gives back its
      non-negative argument. */
  ghost predicate IsSqrt(sqrt: real -> real)
  {
    forall x :: x >= 0.0 ==> sqrt(x) >= 0.0 && sqrt(x) * sqrt(x) == x
  }

  /** The canvas size preprocessImage draws at: the decoded size, scaled by
      `sqrt(maxSize / fileSize)` only when the file is larger than `maxSize`. */
  function CanvasSize(width: real, height: real, fileSize: nat, maxSize: nat, sqrt: real -> real): (size: (real, real))
  {
    if fileSize > maxSize then
      var scale := sqrt(maxSize as real / fileSize as real);
      (width * scale, height * scale)
    else (width, height)
  }

  /** A file within the limit is drawn at its own size. */
  lemma NoDownscaleWithinLimit(width: real, height: real, fileSize: nat, maxSize: nat, sqrt: real -> real)
    requires fileSize <= maxSize
    ensures CanvasSize(width, height, fileSize, maxSize, sqrt) == (width, height)
  {
  }

  /** A larger file is drawn smaller, at an area `maxSize / fileSize` times the decoded area. */
  lemma DownscaleArea(width: real, height: real, fileSize: nat, maxSize: nat, sqrt: real -> real)
    requires IsSqrt(sqrt) && fileSize > maxSize && width >= 0.0 && height >= 0.0
    ensures CanvasSize(width, height, fileSize, maxSize, sqrt).0 <= width
    ensures CanvasSize(width, height, fileSize, maxSize, sqrt).1 <= height
    ensures CanvasSize(width, height, fileSize, maxSize, sqrt).0 * CanvasSize(width, height, fileSize, maxSize, sqrt).1
         == width * height * (maxSize as real / fileSize as real)
  {
    var ratio := maxSize as real / fileSize as real;
    var scale := sqrt(ratio);
    assert 0.0 <= ratio < 1.0 by {
      DivideBelowOne(maxSize as real, fileSize as real);
    }
    assert scale >= 0.0 && scale * scale == ratio;
    assert scale < 1.0 by {
      SquareNonNeg(scale - 1.0);
      assert (scale - 1.0) * (scale - 1.0) == scale * scale - 2.0 * scale + 1.0;
    }
    assert width * scale <= width by {
      ProductNonNeg(width, 1.0 - scale);
    }
    assert height * scale <= height by {
      ProductNonNeg(height, 1.0 - scale);
    }
    assert (width * scale) * (height * scale) == width * height * (scale * scale);
  }

  /** With the default `maxSize` of 4 MiB: a file up to that size keeps its decoded size, and a
      larger one is drawn at `4 MiB / fileSize` times its decoded area, no larger either way. */
  lemma DefaultCanvasSize(width: real, height: real, fileSize: nat, sqrt: real -> real)
    requires IsSqrt(sqrt) && width >= 0.0 && height >= 0.0
    ensures fileSize <= DefaultMaxSize ==> CanvasSize(width, height, fileSize, DefaultMaxSize, sqrt) == (width, height)
    ensures fileSize > DefaultMaxSize ==>
      CanvasSize(width, height, fileSize, DefaultMaxSize, sqrt).0 <= width &&
      CanvasSize(width, height, fileSize, DefaultMaxSize, sqrt).1 <= height &&
      CanvasSize(width, height, fileSize, DefaultMaxSize, sqrt).0 * CanvasSize(width, height, fileSize, DefaultMaxSize, sqrt).1
        == width * height * (4194304.0 / fileSize as real)
  {
    if fileSize > DefaultMaxSize {
      DownscaleArea(width, height, fileSize, DefaultMaxSize, sqrt);
    }
  }

  lemma SquareNonNeg(d: real)
    ensures d * d >= 0.0
  {
    if d < 0.0 {
      assert d * d == (-d) * (-d);
    }
  }

  lemma ProductNonNeg(a: real, b: real)
    requires a >= 0.0 && b >= 0.0
    ensures a * b >= 0.0
  {
  }

  lemma DivideBelowOne(n: real, d: real)
    requires 0.0 <= n < d
    ensures 0.0 <= n / d < 1.0
  {
    assert (n / d) * d == n;
  }
}
