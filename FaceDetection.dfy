/** The sliding-window face heuristic of src/utils/image/face/detection.ts: a skin-colour test and
    an edge measure per pixel, a confidence score per square window, a scan of every window size
    over a level of the image pyramid, and the greedy merge of overlapping rectangles.

    A level is a value (the detector only reads pixel data). The loops of the source are methods
    proved equal to specification functions; the properties of the detector are lemmas about
    those functions. `Math.sqrt` is a parameter `root`, a function on the squared gradient that
    only needs to be non-negative. */
module FaceDetection {
  import opened Pixels

  // ===================== rectangles =====================

  /** A DOMRect built from `(x, y, width, height)`. */
  datatype Rect = Rect(x: int, y: int, width: int, height: int)

  function Min(a: int, b: int): int { if a <= b then a else b }
  function Max(a: int, b: int): int { if a >= b then a else b }

  /** DOMRect's `left`, `right`, `top` and `bottom`, which allow a negative width or height. */
  function Left(r: Rect): int { Min(r.x, r.x + r.width) }
  function Right(r: Rect): int { Max(r.x, r.x + r.width) }
  function Top(r: Rect): int { Min(r.y, r.y + r.height) }
  function Bottom(r: Rect): int { Max(r.y, r.y + r.height) }

  /** `inner` lies inside `outer`. */
  predicate Contains(outer: Rect, inner: Rect)
  {
    Left(outer) <= Left(inner) && Right(inner) <= Right(outer) &&
    Top(outer) <= Top(inner) && Bottom(inner) <= Bottom(outer)
  }

  lemma ContainsTransitive(a: Rect, b: Rect, c: Rect)
    requires Contains(a, b) && Contains(b, c)
    ensures Contains(a, c)
  {
  }

  /** mergeRects(a, b): the bounding box of both rectangles. */
  function MergeRects(a: Rect, b: Rect): (r: Rect)
    ensures Contains(r, a) && Contains(r, b)
    ensures Left(r) == Min(Left(a), Left(b)) && Right(r) == Max(Right(a), Right(b))
    ensures Top(r) == Min(Top(a), Top(b)) && Bottom(r) == Max(Bottom(a), Bottom(b))
  {
    var left := Min(Left(a), Left(b));
    var top := Min(Top(a), Top(b));
    var right := Max(Right(a), Right(b));
    var bottom := Max(Bottom(a), Bottom(b));
    Rect(left, top, right - left, bottom - top)
  }

  /** The merged box is the smallest one holding both rectangles. */
  lemma MergeRectsLeast(a: Rect, b: Rect, c: Rect)
    requires Contains(c, a) && Contains(c, b)
    ensures Contains(c, MergeRects(a, b))
  {
  }

  lemma MergeRectsCommutative(a: Rect, b: Rect)
    ensures MergeRects(a, b) == MergeRects(b, a)
  {
  }

  /** Merging a rectangle of non-negative size with itself gives it back. */
  lemma MergeRectsIdempotent(a: Rect)
    requires a.width >= 0 && a.height >= 0
    ensures MergeRects(a, a) == a
  {
  }

  function Area(r: Rect): int { r.width * r.height }

  /** The area of the intersection, 0 when the rectangles do not meet. */
  function Intersection(a: Rect, b: Rect): int
  {
    Max(0, Min(Right(a), Right(b)) - Max(Left(a), Left(b))) *
    Max(0, Min(Bottom(a), Bottom(b)) - Max(Top(a), Top(b)))
  }

  /** calculateOverlap(a, b): the intersection over the smaller area, as a JavaScript number
      (NaN or an infinity when the smaller area is 0). */
  function Overlap(a: Rect, b: Rect): JsNumber
  {
    Divide(Intersection(a, b) as real, Min(Area(a), Area(b)) as real)
  }

  lemma OverlapSymmetric(a: Rect, b: Rect)
    ensures Overlap(a, b) == Overlap(b, a)
  {
    assert Intersection(a, b) == Intersection(b, a);
  }

  /** A rectangle with positive area overlaps itself completely. */
  lemma OverlapSelf(a: Rect)
    requires a.width > 0 && a.height > 0
    ensures Overlap(a, a) == Finite(1.0)
  {
    assert Right(a) - Left(a) == a.width && Bottom(a) - Top(a) == a.height;
    assert Intersection(a, a) == Area(a);
    assert Area(a) > 0;
    assert Area(a) as real / Area(a) as real == 1.0;
  }

  /** For rectangles of non-negative size, the merge test `overlap > 0.3` is the integer test
      `10 * intersection > 3 * smaller area`; a rectangle of zero area is never merged. */
  lemma OverlapTest(a: Rect, b: Rect)
    requires a.width >= 0 && a.height >= 0 && b.width >= 0 && b.height >= 0
    ensures Exceeds(Overlap(a, b), 0.3) <==> 10 * Intersection(a, b) > 3 * Min(Area(a), Area(b))
  {
    var i := Intersection(a, b);
    var m := Min(Area(a), Area(b));
    if m == 0 {
      if Area(a) == 0 {
        ZeroAreaMeetsNothing(a, b);
      } else {
        ZeroAreaMeetsNothing(b, a);
        assert Intersection(b, a) == i;
      }
    } else {
      assert m > 0;
      DivideAbove(i as real, m as real, 0.3);
    }
  }

  /** The intersection of rectangles of non-negative size is no larger than either of them. */
  lemma IntersectionAtMost(a: Rect, b: Rect)
    requires a.width >= 0 && a.height >= 0 && b.width >= 0 && b.height >= 0
    ensures 0 <= Intersection(a, b) <= Area(a)
  {
    var iw := Max(0, Min(Right(a), Right(b)) - Max(Left(a), Left(b)));
    var ih := Max(0, Min(Bottom(a), Bottom(b)) - Max(Top(a), Top(b)));
    assert iw <= a.width && ih <= a.height;
    MulMonotone(iw, a.width, ih);
    MulMonotone(ih, a.height, a.width);
    assert iw * ih <= a.width * ih <= a.width * a.height;
  }

  /** For rectangles of non-negative size the overlap is a fraction between 0 and 1, or NaN when
      the smaller rectangle has zero area. */
  lemma OverlapBounded(a: Rect, b: Rect)
    requires a.width >= 0 && a.height >= 0 && b.width >= 0 && b.height >= 0
    ensures Overlap(a, b) == NaN <==> Min(Area(a), Area(b)) == 0
    ensures Overlap(a, b) != NaN ==> Overlap(a, b).Finite? && 0.0 <= Overlap(a, b).value <= 1.0
  {
    var i := Intersection(a, b);
    var m := Min(Area(a), Area(b));
    IntersectionAtMost(a, b);
    IntersectionAtMost(b, a);
    assert Intersection(b, a) == i;
    if m == 0 {
      if Area(a) == 0 {
        ZeroAreaMeetsNothing(a, b);
      } else {
        ZeroAreaMeetsNothing(b, a);
      }
    } else {
      assert 0 <= i <= m;
      assert Overlap(a, b) == Finite(i as real / m as real);
      DivideAbove(i as real, m as real, 1.0);
      DivideBelow(i as real, m as real, 0.0);
    }
  }

  /** A rectangle of zero area meets nothing. */
  lemma ZeroAreaMeetsNothing(a: Rect, b: Rect)
    requires a.width >= 0 && a.height >= 0 && Area(a) == 0
    ensures Intersection(a, b) == 0
  {
    if a.width != 0 {
      assert a.height == 0;
    }
  }

  /** `n / d > c` for a positive denominator is `n > c * d`. */
  lemma DivideAbove(n: real, d: real, c: real)
    requires d > 0.0
    ensures n / d > c <==> n > c * d
  {
    assert (n / d) * d == n;
    if n / d > c {
      assert (n / d) * d > c * d;
    }
  }

  /** `n / d < c` for a positive denominator is `n < c * d`. */
  lemma DivideBelow(n: real, d: real, c: real)
    requires d > 0.0
    ensures n / d < c <==> n < c * d
  {
    assert (n / d) * d == n;
    if n / d < c {
      assert (n / d) * d < c * d;
    }
  }

  // ===================== pixels =====================

  /** JavaScript's `x < c`: false for NaN. */
  predicate Below(x: JsNumber, c: real)
  {
    match x
    case Finite(v) => v < c
    case NegInfinity => true
    case _ => false
  }

  function Abs(v: int): int { if v < 0 then -v else v }

  /** isSkinColor(r, g, b), with the normalized shares `r / (r + g + b)` and `g / (r + g + b)`
      as JavaScript numbers. The share tests are exact in floating point too: a share of channel
      bytes differs from 0.35 or 0.36 by far more than the rounding error. */
  predicate IsSkinColor(r: int, g: int, b: int)
  {
    var rgbMax := Max(r, Max(g, b));
    var rgbMin := Min(r, Min(g, b));
    var nr := Divide(r as real, (r + g + b) as real);
    var ng := Divide(g as real, (r + g + b) as real);
    r > 95 && g > 40 && b > 20 &&
    r > g && r > b &&
    r - g > 15 &&
    rgbMax - rgbMin > 15 &&
    Abs(r - g) > 15 &&
    Exceeds(nr, 0.35) && Below(ng, 0.36)
  }

  /** The skin test in integers: the range and spread tests reduce to `r - g > 15`, and the share
      tests to `20 r > 7 (r + g + b)` and `25 g < 9 (r + g + b)`. */
  lemma SkinColorIntegerForm(r: int, g: int, b: int)
    ensures IsSkinColor(r, g, b) <==>
      r > 95 && g > 40 && b > 20 && r > g && r > b && r - g > 15 &&
      20 * r > 7 * (r + g + b) && 25 * g < 9 * (r + g + b)
  {
    if r > 95 && g > 40 && b > 20 {
      var s := (r + g + b) as real;
      DivideAbove(r as real, s, 0.35);
      DivideBelow(g as real, s, 0.36);
    }
  }

  /** Grey pixels (black included) are never skin. */
  lemma GreyNeverSkin(v: int)
    ensures !IsSkinColor(v, v, v)
  {
  }

  /** Byte `c` of pixel `(px, py)` of a `w` by `h` buffer is inside it. */
  lemma PixelBytes(w: nat, h: nat, px: nat, py: nat)
    requires px < w && py < h
    ensures (py * w + px) * 4 + 3 < 4 * w * h
  {
    PixelInImage(w, h, px, py);
    assert 4 * w * h == 4 * (w * h);
  }

  /** One level of the image pyramid: an ImageData that the detector only reads. */
  datatype Level = Level(width: nat, height: nat, data: seq<int>)

  /** The data holds four bytes for every pixel (the detector never relies on their range). */
  predicate ValidLevel(l: Level)
  {
    |l.data| == 4 * l.width * l.height
  }

  /** The skin test on pixel `(px, py)`, as evaluateWindow applies it. */
  predicate SkinAt(l: Level, px: nat, py: nat)
    requires ValidLevel(l) && px < l.width && py < l.height
  {
    var idx := (py * l.width + px) * 4;
    PixelBytes(l.width, l.height, px, py);
    IsSkinColor(l.data[idx], l.data[idx + 1], l.data[idx + 2])
  }

  /** The square root the model leaves abstract: any function that is never negative. */
  ghost predicate IsRoot(root: nat -> real)
  {
    forall n :: root(n) >= 0.0
  }

  /** The left and upper neighbours of a pixel off the first row and column are inside. */
  lemma NeighbourBytes(w: nat, h: nat, px: nat, py: nat)
    requires 1 <= px < w && 1 <= py < h
    ensures 0 <= (py * w + (px - 1)) * 4 < (py * w + px) * 4
    ensures 0 <= ((py - 1) * w + px) * 4 <= (py * w + px) * 4
    ensures (py * w + px) * 4 < 4 * w * h
  {
    PixelBytes(w, h, px, py);
    assert (py - 1) * w == py * w - w;
  }

  /** calculateEdgeStrength(data, width, px, py): the gradient of the red channel against the
      left and upper neighbours, through `root` in place of Math.sqrt. */
  function EdgeStrength(l: Level, root: nat -> real, px: nat, py: nat): (e: real)
    requires ValidLevel(l) && IsRoot(root) && 1 <= px < l.width && 1 <= py < l.height
    ensures e >= 0.0
  {
    var w := l.width;
    NeighbourBytes(w, l.height, px, py);
    var idx := (py * w + px) * 4;
    var prevX := (py * w + (px - 1)) * 4;
    var prevY := ((py - 1) * w + px) * 4;
    var dx := Abs(l.data[idx] - l.data[prevX]);
    var dy := Abs(l.data[idx] - l.data[prevY]);
    root(dx * dx + dy * dy)
  }

  // ===================== one window =====================

  function MinReal(a: real, b: real): real { if a <= b then a else b }

  /** calculateConfidence(skinRatio, edgeStrength): 0.7 * min(1, 2 * skinRatio) +
      0.3 * min(1, edgeStrength / 30). */
  function Confidence(skinRatio: real, edgeStrength: real): (r: real)
    ensures skinRatio >= 0.0 && edgeStrength >= 0.0 ==> 0.0 <= r <= 1.0
    ensures r <= 0.7 * skinRatio * 2.0 + 0.3
  {
    0.7 * MinReal(1.0, skinRatio * 2.0) + 0.3 * MinReal(1.0, edgeStrength / 30.0)
  }

  /** Without skin pixels a window scores at most 0.3, whatever its edges. */
  lemma ConfidenceWithoutSkin(edgeStrength: real)
    ensures Confidence(0.0, edgeStrength) <= 0.3
  {
  }

  /** A score reaching the default threshold needs a skin ratio of at least 5/14. */
  lemma ConfidenceNeedsSkin(skinRatio: real, edgeStrength: real)
    requires Confidence(skinRatio, edgeStrength) >= DefaultThreshold
    ensures skinRatio >= 5.0 / 14.0
  {
  }

  /** The number of skin pixels among the first `n` pixels of the window row at `py`. */
  function RowSkin(l: Level, x: nat, py: nat, n: nat): nat
    requires ValidLevel(l) && x + n <= l.width && py < l.height
  {
    if n == 0 then 0 else RowSkin(l, x, py, n - 1) + (if SkinAt(l, x + n - 1, py) then 1 else 0)
  }

  /** The edge strengths of the window row at `py` from column `x + 1` to column `x + n - 1`. */
  function RowEdge(l: Level, root: nat -> real, x: nat, py: nat, n: nat): real
    requires ValidLevel(l) && IsRoot(root) && x + n <= l.width && 1 <= py < l.height
  {
    if n <= 1 then 0.0 else RowEdge(l, root, x, py, n - 1) + EdgeStrength(l, root, x + n - 1, py)
  }

  /** The skin pixels of the first `m` rows of the `size` by `size` window at `(x, y)`. */
  function WindowSkin(l: Level, x: nat, y: nat, size: nat, m: nat): nat
    requires ValidLevel(l) && x + size <= l.width && y + m <= l.height
  {
    if m == 0 then 0 else WindowSkin(l, x, y, size, m - 1) + RowSkin(l, x, y + m - 1, size)
  }

  /** The edge strengths of the first `m` rows of the window: the first row and the first
      column of the window add nothing. */
  function WindowEdge(l: Level, root: nat -> real, x: nat, y: nat, size: nat, m: nat): real
    requires ValidLevel(l) && IsRoot(root) && x + size <= l.width && y + m <= l.height
  {
    if m <= 1 then 0.0 else WindowEdge(l, root, x, y, size, m - 1) + RowEdge(l, root, x, y + m - 1, size)
  }

  /** What evaluateWindow returns for the `size` by `size` window at `(x, y)`. */
  function WindowConfidence(l: Level, root: nat -> real, x: nat, y: nat, size: nat): real
    requires ValidLevel(l) && IsRoot(root) && size > 0 && x + size <= l.width && y + size <= l.height
  {
    var area := (size * size) as real;
    Confidence(WindowSkin(l, x, y, size, size) as real / area, WindowEdge(l, root, x, y, size, size) / area)
  }

  /** evaluateWindow(data, width, x, y, size): the two counters divided by the window's area
      and combined by calculateConfidence. */
  method EvaluateWindow(l: Level, root: nat -> real, x: nat, y: nat, size: nat) returns (confidence: real)
    requires ValidLevel(l) && IsRoot(root) && size > 0 && x + size <= l.width && y + size <= l.height
    ensures confidence == WindowConfidence(l, root, x, y, size)
  {
    var skinPixels, edgeStrength := WindowCounters(l, root, x, y, size);
    var skinRatio := skinPixels as real / (size * size) as real;
    var normalizedEdgeStrength := edgeStrength / (size * size) as real;
    confidence := Confidence(skinRatio, normalizedEdgeStrength);
  }

  /** The pixel read and skin test of evaluateWindow at `(px, py)`. */
  method ReadSkin(l: Level, px: nat, py: nat) returns (skin: bool)
    requires ValidLevel(l) && px < l.width && py < l.height
    ensures skin == SkinAt(l, px, py)
  {
    var idx := (py * l.width + px) * 4;
    PixelBytes(l.width, l.height, px, py);
    var r := l.data[idx];
    var g := l.data[idx + 1];
    var b := l.data[idx + 2];
    skin := IsSkinColor(r, g, b);
  }

  /** The loops of evaluateWindow: the skin and edge counters accumulated row by row. Every
      pixel read lies inside the level. */
  method WindowCounters(l: Level, root: nat -> real, x: nat, y: nat, size: nat) returns (skinPixels: nat, edgeStrength: real)
    requires ValidLevel(l) && IsRoot(root) && x + size <= l.width && y + size <= l.height
    ensures skinPixels == WindowSkin(l, x, y, size, size)
    ensures edgeStrength == WindowEdge(l, root, x, y, size, size)
  {
    skinPixels := 0;
    edgeStrength := 0.0;
    var dy := 0;
    while dy < size
      invariant 0 <= dy <= size
      invariant skinPixels == WindowSkin(l, x, y, size, dy)
      invariant edgeStrength == WindowEdge(l, root, x, y, size, dy)
    {
      skinPixels, edgeStrength := RowCounters(l, root, x, y, dy, size, skinPixels, edgeStrength);
      dy := dy + 1;
    }
  }

  /** The column loop of evaluateWindow for window row `dy`: adds the row's skin pixels and, off
      the window's first row and column, its edge strengths. */
  method RowCounters(l: Level, root: nat -> real, x: nat, y: nat, dy: nat, size: nat, skin0: nat, edge0: real)
    returns (skinPixels: nat, edgeStrength: real)
    requires ValidLevel(l) && IsRoot(root) && x + size <= l.width && y + dy < l.height
    ensures skinPixels == skin0 + RowSkin(l, x, y + dy, size)
    ensures edgeStrength == edge0 + if dy > 0 then RowEdge(l, root, x, y + dy, size) else 0.0
  {
    skinPixels, edgeStrength := skin0, edge0;
    var py := y + dy;
    var dx := 0;
    while dx < size
      invariant 0 <= dx <= size
      invariant skinPixels == skin0 + RowSkin(l, x, py, dx)
      invariant edgeStrength == edge0 + if dy > 0 then RowEdge(l, root, x, py, dx) else 0.0
    {
      var px := x + dx;
      var skin := ReadSkin(l, px, py);
      if skin {
        skinPixels := skinPixels + 1;
      }
      if dx > 0 && dy > 0 {
        edgeStrength := edgeStrength + EdgeStrength(l, root, px, py);
      }
      dx := dx + 1;
    }
  }

  // ===================== one level =====================

  /** The window sizes of detectFacesAtScale, in the order they are scanned. */
  const WindowSizes: seq<nat> := [24, 36, 48, 64]

  /** Math.max(1, Math.floor(size / 4)). */
  function Step(size: nat): (s: nat)
    ensures s >= 1
  {
    if size / 4 >= 1 then size / 4 else 1
  }

  /** A rectangle detectFacesAtScale may report for `size`: a square window of that size on the
      stride grid, strictly inside the level, scoring at least `threshold`. */
  predicate IsCandidate(l: Level, root: nat -> real, threshold: real, size: nat, r: Rect)
    requires ValidLevel(l) && IsRoot(root)
  {
    size > 0 && r.width == size && r.height == size &&
    r.x >= 0 && r.y >= 0 && r.x % Step(size) == 0 && r.y % Step(size) == 0 &&
    r.x + size < l.width && r.y + size < l.height &&
    WindowConfidence(l, root, r.x, r.y, size) >= threshold
  }

  /** The windows of row `y` reported by the column loop from `x` on. */
  function ScanRow(l: Level, root: nat -> real, threshold: real, size: nat, y: nat, x: nat): seq<Rect>
    requires ValidLevel(l) && IsRoot(root) && size > 0 && y + size < l.height
    decreases l.width - x
  {
    if x >= l.width - size then []
    else
      (if WindowConfidence(l, root, x, y, size) >= threshold then [Rect(x, y, size, size)] else [])
      + ScanRow(l, root, threshold, size, y, x + Step(size))
  }

  /** The windows reported by the row loop from `y` on. */
  function ScanRows(l: Level, root: nat -> real, threshold: real, size: nat, y: nat): seq<Rect>
    requires ValidLevel(l) && IsRoot(root) && size > 0
    decreases l.height - y
  {
    if y >= l.height - size then []
    else ScanRow(l, root, threshold, size, y, 0) + ScanRows(l, root, threshold, size, y + Step(size))
  }

  /** The windows reported for each window size from the `s`-th on, in order. */
  function ScanSizes(l: Level, root: nat -> real, threshold: real, s: nat): seq<Rect>
    requires ValidLevel(l) && IsRoot(root)
    decreases |WindowSizes| - s
  {
    if s >= |WindowSizes| then []
    else ScanRows(l, root, threshold, WindowSizes[s], 0) + ScanSizes(l, root, threshold, s + 1)
  }

  /** What detectFacesAtScale reports for one level. */
  function Candidates(l: Level, root: nat -> real, threshold: real): seq<Rect>
    requires ValidLevel(l) && IsRoot(root)
  {
    ScanSizes(l, root, threshold, 0)
  }

  /** detectFacesAtScale(level, threshold): for each window size in turn, the window loops push
      every window whose confidence reaches the threshold. */
  method DetectFacesAtScale(l: Level, root: nat -> real, threshold: real) returns (faces: seq<Rect>)
    requires ValidLevel(l) && IsRoot(root)
    ensures faces == Candidates(l, root, threshold)
  {
    faces := [];
    var s := 0;
    while s < |WindowSizes|
      invariant 0 <= s <= |WindowSizes|
      invariant faces + ScanSizes(l, root, threshold, s) == Candidates(l, root, threshold)
    {
      var size := WindowSizes[s];
      ghost var before := faces;
      faces := ScanWindows(l, root, threshold, size, faces);
      assert before + ScanSizes(l, root, threshold, s)
          == before + ScanRows(l, root, threshold, size, 0) + ScanSizes(l, root, threshold, s + 1);
      s := s + 1;
    }
  }

  /** The row loop of detectFacesAtScale for one window size, appending to `faces0`. */
  method ScanWindows(l: Level, root: nat -> real, threshold: real, size: nat, faces0: seq<Rect>) returns (faces: seq<Rect>)
    requires ValidLevel(l) && IsRoot(root) && size > 0
    ensures faces == faces0 + ScanRows(l, root, threshold, size, 0)
  {
    faces := faces0;
    var step := Step(size);
    var y := 0;
    while y < l.height - size
      invariant faces + ScanRows(l, root, threshold, size, y) == faces0 + ScanRows(l, root, threshold, size, 0)
      decreases l.height - y
    {
      ghost var before := faces;
      faces := ScanWindowRow(l, root, threshold, size, y, faces);
      assert before + ScanRows(l, root, threshold, size, y)
          == before + ScanRow(l, root, threshold, size, y, 0) + ScanRows(l, root, threshold, size, y + step);
      y := y + step;
    }
  }

  /** The column loop of detectFacesAtScale for window row `y`, appending to `faces0`. */
  method ScanWindowRow(l: Level, root: nat -> real, threshold: real, size: nat, y: nat, faces0: seq<Rect>) returns (faces: seq<Rect>)
    requires ValidLevel(l) && IsRoot(root) && size > 0 && y + size < l.height
    ensures faces == faces0 + ScanRow(l, root, threshold, size, y, 0)
  {
    faces := faces0;
    var step := Step(size);
    var x := 0;
    while x < l.width - size
      invariant faces + ScanRow(l, root, threshold, size, y, x) == faces0 + ScanRow(l, root, threshold, size, y, 0)
      decreases l.width - x
    {
      var confidence := EvaluateWindow(l, root, x, y, size);
      ghost var before := faces;
      if confidence >= threshold {
        faces := faces + [Rect(x, y, size, size)];
        assert before + ScanRow(l, root, threshold, size, y, x)
            == faces + ScanRow(l, root, threshold, size, y, x + step);
      }
      x := x + step;
    }
  }

  /** Adding a positive stride keeps a multiple of the stride a multiple. */
  lemma StrideMultiple(x: nat, step: nat)
    requires step > 0 && x % step == 0
    ensures (x + step) % step == 0
  {
    var q := x / step;
    assert x == q * step;
    assert x + step == (q + 1) * step + 0;
    PixelCoords(step, q + 1, 0);
  }

  lemma {:induction false} ScanRowCandidates(l: Level, root: nat -> real, threshold: real, size: nat, y: nat, x: nat)
    requires ValidLevel(l) && IsRoot(root) && size > 0 && y + size < l.height
    requires y % Step(size) == 0 && x % Step(size) == 0
    ensures forall r :: r in ScanRow(l, root, threshold, size, y, x) ==> IsCandidate(l, root, threshold, size, r)
    decreases l.width - x
  {
    if x < l.width - size {
      StrideMultiple(x, Step(size));
      ScanRowCandidates(l, root, threshold, size, y, x + Step(size));
    }
  }

  lemma {:induction false} ScanRowsCandidates(l: Level, root: nat -> real, threshold: real, size: nat, y: nat)
    requires ValidLevel(l) && IsRoot(root) && size > 0 && y % Step(size) == 0
    ensures forall r :: r in ScanRows(l, root, threshold, size, y) ==> IsCandidate(l, root, threshold, size, r)
    decreases l.height - y
  {
    if y < l.height - size {
      ScanRowCandidates(l, root, threshold, size, y, 0);
      StrideMultiple(y, Step(size));
      ScanRowsCandidates(l, root, threshold, size, y + Step(size));
    }
  }

  lemma {:induction false} ScanSizesCandidates(l: Level, root: nat -> real, threshold: real, s: nat)
    requires ValidLevel(l) && IsRoot(root)
    ensures forall r :: r in ScanSizes(l, root, threshold, s) ==>
      exists i :: s <= i < |WindowSizes| && IsCandidate(l, root, threshold, WindowSizes[i], r)
    decreases |WindowSizes| - s
  {
    if s < |WindowSizes| {
      ScanRowsCandidates(l, root, threshold, WindowSizes[s], 0);
      ScanSizesCandidates(l, root, threshold, s + 1);
    }
  }

  /** Every rectangle of one level is a square window of one of the four sizes, on that size's
      stride grid, strictly inside the level, with a confidence at least the threshold. */
  lemma CandidatesWellFormed(l: Level, root: nat -> real, threshold: real)
    requires ValidLevel(l) && IsRoot(root)
    ensures forall r :: r in Candidates(l, root, threshold) ==>
      exists i :: 0 <= i < |WindowSizes| && IsCandidate(l, root, threshold, WindowSizes[i], r)
  {
    ScanSizesCandidates(l, root, threshold, 0);
  }

  // ===================== grey levels =====================

  /** Pixel `(px, py)` has equal red, green and blue bytes. */
  predicate GreyAt(l: Level, px: nat, py: nat)
    requires ValidLevel(l) && px < l.width && py < l.height
  {
    var idx := (py * l.width + px) * 4;
    PixelBytes(l.width, l.height, px, py);
    l.data[idx] == l.data[idx + 1] == l.data[idx + 2]
  }

  /** Every pixel of the level is grey (or black, or white). */
  predicate IsGreyLevel(l: Level)
    requires ValidLevel(l)
  {
    forall px: nat, py: nat :: px < l.width && py < l.height ==> GreyAt(l, px, py)
  }

  lemma {:induction false} GreyRowSkin(l: Level, x: nat, py: nat, n: nat)
    requires ValidLevel(l) && IsGreyLevel(l) && x + n <= l.width && py < l.height
    ensures RowSkin(l, x, py, n) == 0
  {
    if n > 0 {
      GreyRowSkin(l, x, py, n - 1);
      GreyPixelNotSkin(l, x + n - 1, py);
    }
  }

  lemma GreyPixelNotSkin(l: Level, px: nat, py: nat)
    requires ValidLevel(l) && px < l.width && py < l.height && GreyAt(l, px, py)
    ensures !SkinAt(l, px, py)
  {
    var idx := (py * l.width + px) * 4;
    PixelBytes(l.width, l.height, px, py);
    GreyNeverSkin(l.data[idx]);
  }

  lemma {:induction false} GreyWindowSkin(l: Level, x: nat, y: nat, size: nat, m: nat)
    requires ValidLevel(l) && IsGreyLevel(l) && x + size <= l.width && y + m <= l.height
    ensures WindowSkin(l, x, y, size, m) == 0
  {
    if m > 0 {
      GreyWindowSkin(l, x, y, size, m - 1);
      GreyRowSkin(l, x, y + m - 1, size);
    }
  }

  lemma {:induction false} GreyScanRow(l: Level, root: nat -> real, threshold: real, size: nat, y: nat, x: nat)
    requires ValidLevel(l) && IsRoot(root) && IsGreyLevel(l) && threshold > 0.3 && size > 0 && y + size < l.height
    ensures ScanRow(l, root, threshold, size, y, x) == []
    decreases l.width - x
  {
    if x < l.width - size {
      GreyWindowSkin(l, x, y, size, size);
      ConfidenceWithoutSkin(WindowEdge(l, root, x, y, size, size) / (size * size) as real);
      GreyScanRow(l, root, threshold, size, y, x + Step(size));
    }
  }

  lemma {:induction false} GreyScanRows(l: Level, root: nat -> real, threshold: real, size: nat, y: nat)
    requires ValidLevel(l) && IsRoot(root) && IsGreyLevel(l) && threshold > 0.3 && size > 0
    ensures ScanRows(l, root, threshold, size, y) == []
    decreases l.height - y
  {
    if y < l.height - size {
      GreyScanRow(l, root, threshold, size, y, 0);
      GreyScanRows(l, root, threshold, size, y + Step(size));
    }
  }

  lemma {:induction false} GreyScanSizes(l: Level, root: nat -> real, threshold: real, s: nat)
    requires ValidLevel(l) && IsRoot(root) && IsGreyLevel(l) && threshold > 0.3
    ensures ScanSizes(l, root, threshold, s) == []
    decreases |WindowSizes| - s
  {
    if s < |WindowSizes| {
      GreyScanRows(l, root, threshold, WindowSizes[s], 0);
      GreyScanSizes(l, root, threshold, s + 1);
    }
  }

  /** A grey level has no skin pixels, so every window scores at most 0.3 and, for any threshold
      above that (the default is 0.8), no window is reported. */
  lemma GreyLevelHasNoCandidates(l: Level, root: nat -> real, threshold: real)
    requires ValidLevel(l) && IsRoot(root) && IsGreyLevel(l) && threshold > 0.3
    ensures Candidates(l, root, threshold) == []
  {
    GreyScanSizes(l, root, threshold, 0);
  }

  // ===================== merging =====================

  /** The inner loop of mergeFaceDetections from index `j` on: returns the grown rectangle and
      the grown `used` set. */
  function Absorb(faces: seq<Rect>, used: set<nat>, current: Rect, j: nat): (Rect, set<nat>)
    decreases |faces| - j
  {
    if j >= |faces| then (current, used)
    else if j in used then Absorb(faces, used, current, j + 1)
    else if Exceeds(Overlap(current, faces[j]), 0.3) then
      Absorb(faces, used + {j}, MergeRects(current, faces[j]), j + 1)
    else Absorb(faces, used, current, j + 1)
  }

  /** The outer loop of mergeFaceDetections from index `i` on. */
  function MergeFrom(faces: seq<Rect>, used: set<nat>, i: nat): seq<Rect>
    decreases |faces| - i
  {
    if i >= |faces| then []
    else if i in used then MergeFrom(faces, used, i + 1)
    else
      var (current, used') := Absorb(faces, used + {i}, faces[i], i + 1);
      [current] + MergeFrom(faces, used', i + 1)
  }

  /** What mergeFaceDetections returns. */
  function Merge(faces: seq<Rect>): seq<Rect>
  {
    MergeFrom(faces, {}, 0)
  }

  /** mergeFaceDetections(faces): each index not yet used seeds a rectangle that absorbs every
      later unused rectangle it overlaps by more than 0.3, testing against the grown rectangle. */
  method MergeFaceDetections(faces: seq<Rect>) returns (merged: seq<Rect>)
    ensures merged == Merge(faces)
  {
    merged := [];
    var used: set<nat> := {};
    var i := 0;
    while i < |faces|
      invariant 0 <= i <= |faces|
      invariant merged + MergeFrom(faces, used, i) == Merge(faces)
    {
      if i !in used {
        var current := faces[i];
        used := used + {i};
        ghost var seedUsed := used;
        var j := i + 1;
        while j < |faces|
          invariant i + 1 <= j <= |faces|
          invariant Absorb(faces, used, current, j) == Absorb(faces, seedUsed, faces[i], i + 1)
        {
          if j !in used {
            if Exceeds(Overlap(current, faces[j]), 0.3) {
              current := MergeRects(current, faces[j]);
              used := used + {j};
            }
          }
          j := j + 1;
        }
        assert merged + [current] + MergeFrom(faces, used, i + 1) == merged + ([current] + MergeFrom(faces, used, i + 1));
        merged := merged + [current];
      }
      i := i + 1;
    }
  }

  /** The inner loop only adds indices from `j` on, and the grown rectangle holds the seed and
      every rectangle it absorbed. */
  lemma {:induction false} AbsorbCovers(faces: seq<Rect>, used: set<nat>, current: Rect, j: nat)
    ensures used <= Absorb(faces, used, current, j).1
    ensures Contains(Absorb(faces, used, current, j).0, current)
    ensures forall k :: k in Absorb(faces, used, current, j).1 && k !in used ==>
      j <= k < |faces| && Contains(Absorb(faces, used, current, j).0, faces[k])
    decreases |faces| - j
  {
    if j < |faces| {
      if j in used || !Exceeds(Overlap(current, faces[j]), 0.3) {
        AbsorbCovers(faces, used, current, j + 1);
      } else {
        var m := MergeRects(current, faces[j]);
        AbsorbCovers(faces, used + {j}, m, j + 1);
        var (c, u) := Absorb(faces, used + {j}, m, j + 1);
        ContainsTransitive(c, m, current);
        ContainsTransitive(c, m, faces[j]);
      }
    }
  }

  /** Every rectangle from index `i` on that is not yet used lies inside some rectangle the
      outer loop emits from `i` on. */
  lemma {:induction false} MergeFromCovers(faces: seq<Rect>, used: set<nat>, i: nat)
    ensures forall k :: i <= k < |faces| && k !in used ==>
      exists m :: m in MergeFrom(faces, used, i) && Contains(m, faces[k])
    decreases |faces| - i
  {
    if i < |faces| {
      if i in used {
        MergeFromCovers(faces, used, i + 1);
      } else {
        var (c, u) := Absorb(faces, used + {i}, faces[i], i + 1);
        AbsorbCovers(faces, used + {i}, faces[i], i + 1);
        MergeFromCovers(faces, u, i + 1);
        var out := MergeFrom(faces, used, i);
        assert out == [c] + MergeFrom(faces, u, i + 1);
        forall k | i <= k < |faces| && k !in used
          ensures exists m :: m in out && Contains(m, faces[k])
        {
          if k == i || k in u {
            assert c in out && Contains(c, faces[k]);
          } else {
            var m :| m in MergeFrom(faces, u, i + 1) && Contains(m, faces[k]);
            assert m in out;
          }
        }
      }
    }
  }

  /** Every input rectangle lies inside some merged rectangle. */
  lemma MergeCovers(faces: seq<Rect>)
    ensures forall k :: 0 <= k < |faces| ==> exists m :: m in Merge(faces) && Contains(m, faces[k])
  {
    var none: set<nat> := {};
    MergeFromCovers(faces, none, 0);
    assert Merge(faces) == MergeFrom(faces, none, 0);
    forall k | 0 <= k < |faces|
      ensures exists m :: m in Merge(faces) && Contains(m, faces[k])
    {
      assert k !in none;
      assert exists m :: m in MergeFrom(faces, none, 0) && Contains(m, faces[k]);
    }
  }

  /** Every rectangle the outer loop emits from `i` on contains the face that seeded it: an
      index from `i` on that was not yet used. */
  lemma {:induction false} MergeFromSeeds(faces: seq<Rect>, used: set<nat>, i: nat)
    ensures forall m :: m in MergeFrom(faces, used, i) ==>
      exists k :: i <= k < |faces| && k !in used && Contains(m, faces[k])
    decreases |faces| - i
  {
    if i < |faces| {
      if i in used {
        MergeFromSeeds(faces, used, i + 1);
      } else {
        var (c, u) := Absorb(faces, used + {i}, faces[i], i + 1);
        AbsorbCovers(faces, used + {i}, faces[i], i + 1);
        MergeFromSeeds(faces, u, i + 1);
        var out := MergeFrom(faces, used, i);
        assert out == [c] + MergeFrom(faces, u, i + 1);
        forall m | m in out
          ensures exists k :: i <= k < |faces| && k !in used && Contains(m, faces[k])
        {
          if m == c {
            assert Contains(m, faces[i]);
          } else {
            assert m in MergeFrom(faces, u, i + 1);
            var k :| i + 1 <= k < |faces| && k !in u && Contains(m, faces[k]);
            assert k !in used;
          }
        }
      }
    }
  }

  /** Every merged rectangle contains at least one input rectangle. */
  lemma MergeSeeds(faces: seq<Rect>)
    ensures forall m :: m in Merge(faces) ==> exists k :: 0 <= k < |faces| && Contains(m, faces[k])
  {
    var none: set<nat> := {};
    MergeFromSeeds(faces, none, 0);
    assert Merge(faces) == MergeFrom(faces, none, 0);
  }

  /** The outer loop emits at most one rectangle per remaining index. */
  lemma {:induction false} MergeFromLength(faces: seq<Rect>, used: set<nat>, i: nat)
    requires i <= |faces|
    ensures |MergeFrom(faces, used, i)| <= |faces| - i
    decreases |faces| - i
  {
    if i < |faces| {
      if i in used {
        MergeFromLength(faces, used, i + 1);
      } else {
        var (c, u) := Absorb(faces, used + {i}, faces[i], i + 1);
        MergeFromLength(faces, u, i + 1);
      }
    }
  }

  /** Merging never adds rectangles; it returns none exactly when it is given none. */
  lemma MergeLength(faces: seq<Rect>)
    ensures |Merge(faces)| <= |faces|
    ensures Merge(faces) == [] <==> faces == []
  {
    MergeFromLength(faces, {}, 0);
  }

  // ===================== all levels =====================

  /** The candidates of every level, concatenated in level order, in each level's coordinates. */
  function AllCandidates(levels: seq<Level>, root: nat -> real, threshold: real): seq<Rect>
    requires IsRoot(root) && forall i :: 0 <= i < |levels| ==> ValidLevel(levels[i])
  {
    if levels == [] then []
    else AllCandidates(levels[..|levels| - 1], root, threshold) + Candidates(levels[|levels| - 1], root, threshold)
  }

  /** The default confidence threshold of detectFaces. */
  const DefaultThreshold: real := 0.8

  /** detectFaces over the levels of the pyramid (the original image first): the candidates of
      every level in level order, merged. Rectangles are not scaled back to the original image. */
  method DetectFaces(levels: seq<Level>, root: nat -> real, threshold: real) returns (merged: seq<Rect>)
    requires IsRoot(root) && forall i :: 0 <= i < |levels| ==> ValidLevel(levels[i])
    ensures merged == Merge(AllCandidates(levels, root, threshold))
  {
    var faces := [];
    var i := 0;
    while i < |levels|
      invariant 0 <= i <= |levels|
      invariant faces == AllCandidates(levels[..i], root, threshold)
    {
      var detected := DetectFacesAtScale(levels[i], root, threshold);
      assert levels[..i + 1][..i] == levels[..i];
      faces := faces + detected;
      i := i + 1;
    }
    assert levels[..i] == levels;
    merged := MergeFaceDetections(faces);
  }

  /** Every rectangle of the concatenation comes from one of the levels, in that level's
      coordinates. */
  lemma {:induction false} AllCandidatesOf(levels: seq<Level>, root: nat -> real, threshold: real)
    requires IsRoot(root) && forall i :: 0 <= i < |levels| ==> ValidLevel(levels[i])
    ensures forall r :: r in AllCandidates(levels, root, threshold) ==>
      exists i :: 0 <= i < |levels| && r in Candidates(levels[i], root, threshold)
  {
    if levels != [] {
      var n := |levels| - 1;
      AllCandidatesOf(levels[..n], root, threshold);
      forall r | r in AllCandidates(levels, root, threshold)
        ensures exists i :: 0 <= i < |levels| && r in Candidates(levels[i], root, threshold)
      {
        assert AllCandidates(levels, root, threshold)
            == AllCandidates(levels[..n], root, threshold) + Candidates(levels[n], root, threshold);
        if r !in Candidates(levels[n], root, threshold) {
          assert r in AllCandidates(levels[..n], root, threshold);
          var i :| 0 <= i < n && r in Candidates(levels[..n][i], root, threshold);
          assert levels[..n][i] == levels[i];
        }
      }
    }
  }

  /** Every candidate window of every level lies inside a rectangle detectFaces reports, and
      merging never reports more rectangles than there were candidates. */
  lemma DetectedFacesCoverCandidates(levels: seq<Level>, root: nat -> real, threshold: real)
    requires IsRoot(root) && forall i :: 0 <= i < |levels| ==> ValidLevel(levels[i])
    ensures |Merge(AllCandidates(levels, root, threshold))| <= |AllCandidates(levels, root, threshold)|
    ensures forall r :: r in AllCandidates(levels, root, threshold) ==>
      exists m :: m in Merge(AllCandidates(levels, root, threshold)) && Contains(m, r)
  {
    var all := AllCandidates(levels, root, threshold);
    MergeLength(all);
    MergeCovers(all);
    forall r | r in all
      ensures exists m :: m in Merge(all) && Contains(m, r)
    {
      var k :| 0 <= k < |all| && all[k] == r;
    }
  }

  /** Every rectangle detectFaces reports contains some candidate window of some level. */
  lemma DetectedFacesContainCandidates(levels: seq<Level>, root: nat -> real, threshold: real)
    requires IsRoot(root) && forall i :: 0 <= i < |levels| ==> ValidLevel(levels[i])
    ensures forall m :: m in Merge(AllCandidates(levels, root, threshold)) ==>
      exists i, r :: 0 <= i < |levels| && r in Candidates(levels[i], root, threshold) && Contains(m, r)
  {
    var all := AllCandidates(levels, root, threshold);
    MergeSeeds(all);
    AllCandidatesOf(levels, root, threshold);
    forall m | m in Merge(all)
      ensures exists i, r :: 0 <= i < |levels| && r in Candidates(levels[i], root, threshold) && Contains(m, r)
    {
      var k :| 0 <= k < |all| && Contains(m, all[k]);
      assert all[k] in all;
      var i :| 0 <= i < |levels| && all[k] in Candidates(levels[i], root, threshold);
    }
  }

  /** On grey levels (with a threshold above 0.3, such as the default) nothing is detected. */
  lemma GreyLevelsDetectNothing(levels: seq<Level>, root: nat -> real, threshold: real)
    requires IsRoot(root) && forall i :: 0 <= i < |levels| ==> ValidLevel(levels[i]) && IsGreyLevel(levels[i])
    requires threshold > 0.3
    ensures Merge(AllCandidates(levels, root, threshold)) == []
  {
    GreyAllCandidates(levels, root, threshold);
  }

  /** detectFaces with its default options finds no face on grey levels. */
  lemma GreyLevelsDetectNothingByDefault(levels: seq<Level>, root: nat -> real)
    requires IsRoot(root) && forall i :: 0 <= i < |levels| ==> ValidLevel(levels[i]) && IsGreyLevel(levels[i])
    ensures Merge(AllCandidates(levels, root, DefaultThreshold)) == []
  {
    GreyLevelsDetectNothing(levels, root, DefaultThreshold);
  }

  lemma {:induction false} GreyAllCandidates(levels: seq<Level>, root: nat -> real, threshold: real)
    requires IsRoot(root) && forall i :: 0 <= i < |levels| ==> ValidLevel(levels[i]) && IsGreyLevel(levels[i])
    requires threshold > 0.3
    ensures AllCandidates(levels, root, threshold) == []
  {
    if levels != [] {
      var n := |levels| - 1;
      GreyAllCandidates(levels[..n], root, threshold);
      GreyLevelHasNoCandidates(levels[n], root, threshold);
    }
  }
}
