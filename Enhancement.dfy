/** The four-stage enhancer of src/utils/image/enhancement.ts. Each stage rewrites the colour
    bytes of an RGBA buffer in place (an `array<int>` here, a Uint8ClampedArray in the program);
    each stage method is proved equal to a specification function on the buffer's contents, and
    the properties of the stages are proved about those functions. */
module Enhancement {
  import opened Pixels
  import opened Sorting

  // ===================== histogram equalization =====================

  /** Math.round((r + g + b) / 3) for pixel `p`: the histogram bin of the pixel. */
  function Brightness(s: seq<int>, p: nat): (b: int)
    requires AllBytes(s) && 4 * p + 2 < |s|
    ensures 0 <= b <= 255
    ensures b == (s[4 * p] + s[4 * p + 1] + s[4 * p + 2] + 1) / 3
  {
    var sum := s[4 * p] + s[4 * p + 1] + s[4 * p + 2];
    assert IsByte(s[4 * p]) && IsByte(s[4 * p + 1]) && IsByte(s[4 * p + 2]);
    RoundThirds(sum);
    Round(sum as real / 3.0)
  }

  lemma RoundThirds(sum: int)
    ensures Round(sum as real / 3.0) == (sum + 1) / 3
  {
    var q := (sum + 1) / 3;
    assert sum + 1 == 3 * q + (sum + 1) % 3;
    assert q as real - 0.5 <= sum as real / 3.0 < q as real + 0.5;
    RoundUnique(sum as real / 3.0, q);
  }

  lemma RoundUnique(x: real, n: int)
    requires n as real - 0.5 <= x < n as real + 0.5
    ensures Round(x) == n
  {
  }

  /** The number of the first `n` pixels whose brightness is `b`: bin `b` of the histogram. */
  function CountBrightness(s: seq<int>, n: nat, b: int): (c: nat)
    requires AllBytes(s) && 4 * n <= |s|
    ensures c <= n
  {
    if n == 0 then 0
    else CountBrightness(s, n - 1, b) + (if Brightness(s, n - 1) == b then 1 else 0)
  }

  /** The number of the first `n` pixels whose brightness is at most `v`. */
  function CountAtMost(s: seq<int>, n: nat, v: int): (c: nat)
    requires AllBytes(s) && 4 * n <= |s|
    ensures c <= n
  {
    if n == 0 then 0
    else CountAtMost(s, n - 1, v) + (if Brightness(s, n - 1) <= v then 1 else 0)
  }

  /** The cumulative histogram adds one bin at a time. */
  lemma {:induction false} CountAtMostStep(s: seq<int>, n: nat, v: int)
    requires AllBytes(s) && 4 * n <= |s|
    ensures v == 0 ==> CountAtMost(s, n, v) == CountBrightness(s, n, v)
    ensures v >= 1 ==> CountAtMost(s, n, v) == CountAtMost(s, n, v - 1) + CountBrightness(s, n, v)
  {
    if n > 0 {
      CountAtMostStep(s, n - 1, v);
    }
  }

  lemma {:induction false} CountAtMostMonotone(s: seq<int>, n: nat, u: int, v: int)
    requires AllBytes(s) && 4 * n <= |s|
    requires u <= v
    ensures CountAtMost(s, n, u) <= CountAtMost(s, n, v)
  {
    if n > 0 {
      CountAtMostMonotone(s, n - 1, u, v);
    }
  }

  /** Every pixel's brightness is at most 255, so the last cumulative bin counts every pixel. */
  lemma {:induction false} CountAtMostAll(s: seq<int>, n: nat)
    requires AllBytes(s) && 4 * n <= |s|
    ensures CountAtMost(s, n, 255) == n
  {
    if n > 0 {
      CountAtMostAll(s, n - 1);
    }
  }

  /** The cumulative distribution: `cdf[v]` counts the pixels of brightness at most `v`. */
  function Cdf(s: seq<int>): (cdf: seq<int>)
    requires AllBytes(s) && |s| % 4 == 0
    ensures |cdf| == 256
    ensures forall v :: 0 <= v < 256 ==> 0 <= cdf[v] <= |s| / 4
  {
    seq(256, v requires 0 <= v < 256 => CountAtMost(s, |s| / 4, v))
  }

  /** `cdf.find(x => x > 0) || 0`: the first positive entry, or 0 when there is none. */
  function FirstPositive(c: seq<int>): (r: int)
    ensures r >= 0
    ensures r == 0 <==> forall i :: 0 <= i < |c| ==> c[i] <= 0
    ensures r > 0 ==> r in c
  {
    if c == [] then 0
    else if c[0] > 0 then c[0]
    else FirstPositive(c[1..])
  }

  /** Entry `v` of the normalized table:
      Math.round(((cdf[v] - cdfMin) / (totalPixels - cdfMin)) * 255). There is no guard for a zero
      denominator, so the entry may be NaN or an infinity. */
  function TableEntry(cdfV: int, cdfMin: int, totalPixels: int): JsNumber
  {
    RoundNumber(TimesPositive(Divide((cdfV - cdfMin) as real, (totalPixels - cdfMin) as real), 255.0))
  }

  function Table(s: seq<int>): (table: seq<JsNumber>)
    requires AllBytes(s) && |s| % 4 == 0
    ensures |table| == 256
  {
    var cdf := Cdf(s);
    seq(256, v requires 0 <= v < 256 => TableEntry(cdf[v], FirstPositive(cdf), |s| / 4))
  }

  /** The byte left at position `k` when the colour bytes of `s` go through `table`, each
      indexed by its own value; alpha bytes stay. */
  function ApplyTableAt(s: seq<int>, table: seq<JsNumber>, k: nat): int
    requires AllBytes(s) && |table| == 256 && k < |s|
  {
    if k % 4 < 3 then ClampedStore(table[s[k]]) else s[k]
  }

  function Equalize(s: seq<int>): (r: seq<int>)
    requires AllBytes(s) && |s| % 4 == 0
    ensures |r| == |s| && AllBytes(r) && SameAlpha(s, r)
  {
    var table := Table(s);
    seq(|s|, k requires 0 <= k < |s| => ApplyTableAt(s, table, k))
  }

  /** equalizeHistogram(data): histogram, cumulative distribution, normalization, remapping. */
  method EqualizeHistogram(a: array<int>)
    requires AllBytes(a[..]) && a.Length % 4 == 0
    modifies a
    ensures a[..] == Equalize(old(a[..]))
  {
    var histogram := BuildHistogram(a);
    var cdf := CumulativeDistribution(histogram, a[..]);
    var table := NormalizeCdf(cdf, a.Length / 4);
    assert table[..] == Table(a[..]);
    ApplyTable(a, table);
  }

  /** The histogram loop of equalizeHistogram: bin `b` counts the pixels of brightness `b`. */
  method BuildHistogram(a: array<int>) returns (histogram: array<int>)
    requires AllBytes(a[..]) && a.Length % 4 == 0
    ensures fresh(histogram) && histogram.Length == 256
    ensures forall b :: 0 <= b < 256 ==> histogram[b] == CountBrightness(a[..], a.Length / 4, b)
  {
    histogram := new int[256](_ => 0);
    var i := 0;
    while i < a.Length
      invariant 0 <= i <= a.Length && i % 4 == 0
      invariant forall b :: 0 <= b < 256 ==> histogram[b] == CountBrightness(a[..], i / 4, b)
      modifies histogram
    {
      var brightness := Round((a[i] + a[i + 1] + a[i + 2]) as real / 3.0);
      assert brightness == Brightness(a[..], i / 4);
      histogram[brightness] := histogram[brightness] + 1;
      i := i + 4;
    }
  }

  /** The running-sum loop of equalizeHistogram: `cdf[v]` is the sum of bins `0..v`. */
  method CumulativeDistribution(histogram: array<int>, ghost s: seq<int>) returns (cdf: array<int>)
    requires AllBytes(s) && |s| % 4 == 0 && histogram.Length == 256
    requires forall b :: 0 <= b < 256 ==> histogram[b] == CountBrightness(s, |s| / 4, b)
    ensures fresh(cdf) && cdf[..] == Cdf(s)
  {
    var total := |s| / 4;
    cdf := new int[256](_ => 0);
    cdf[0] := histogram[0];
    CountAtMostStep(s, total, 0);
    var v := 1;
    while v < 256
      invariant 1 <= v <= 256
      invariant forall u :: 0 <= u < v ==> cdf[u] == CountAtMost(s, total, u)
      modifies cdf
    {
      CountAtMostStep(s, total, v);
      cdf[v] := cdf[v - 1] + histogram[v];
      v := v + 1;
    }
  }

  /** The normalization loop of equalizeHistogram, with cdfMin found first. */
  method NormalizeCdf(cdf: array<int>, totalPixels: int) returns (table: array<JsNumber>)
    requires cdf.Length == 256
    ensures fresh(table) && table.Length == 256
    ensures forall v :: 0 <= v < 256 ==> table[v] == TableEntry(cdf[v], FirstPositive(cdf[..]), totalPixels)
  {
    var cdfMin := FirstPositive(cdf[..]);
    table := new JsNumber[256](_ => NaN);
    var v := 0;
    while v < 256
      invariant 0 <= v <= 256
      invariant forall u :: 0 <= u < v ==> table[u] == TableEntry(cdf[u], cdfMin, totalPixels)
      modifies table
    {
      table[v] := RoundNumber(TimesPositive(Divide((cdf[v] - cdfMin) as real, (totalPixels - cdfMin) as real), 255.0));
      v := v + 1;
    }
  }

  /** The remapping loop of equalizeHistogram: `data[i + j] = cdf[data[i + j]]` for j < 3. */
  method ApplyTable(a: array<int>, table: array<JsNumber>)
    requires AllBytes(a[..]) && a.Length % 4 == 0 && table.Length == 256
    modifies a
    ensures forall k :: 0 <= k < a.Length ==> a[k] == ApplyTableAt(old(a[..]), table[..], k)
  {
    ghost var s := a[..];
    var i := 0;
    while i < a.Length
      invariant 0 <= i <= a.Length && i % 4 == 0
      invariant forall k :: 0 <= k < a.Length ==> a[k] == if k < i then ApplyTableAt(s, table[..], k) else s[k]
      modifies a
    {
      var j := 0;
      while j < 3
        invariant 0 <= j <= 3
        invariant forall k :: 0 <= k < a.Length ==> a[k] == if k < i + j then ApplyTableAt(s, table[..], k) else s[k]
        modifies a
      {
        a[i + j] := ClampedStore(table[a[i + j]]);
        j := j + 1;
      }
      i := i + 4;
    }
  }

  /** Normalized entries never decrease with the cumulative count. */
  lemma EntryMonotone(x: int, y: int, cdfMin: int, total: int)
    requires x <= y && total > cdfMin
    ensures ClampedStore(TableEntry(x, cdfMin, total)) <= ClampedStore(TableEntry(y, cdfMin, total))
  {
    var d := (total - cdfMin) as real;
    var a, b := (x - cdfMin) as real, (y - cdfMin) as real;
    assert a / d <= b / d by { DivideMonotone(a, b, d); }
    RoundMonotone(a / d * 255.0, b / d * 255.0);
    ClampMonotone(Round(a / d * 255.0), Round(b / d * 255.0));
  }

  lemma DivideMonotone(a: real, b: real, d: real)
    requires a <= b && d > 0.0
    ensures a / d <= b / d
  {
    assert b / d - a / d == (b - a) / d;
  }

  /** The full count normalizes to 255. */
  lemma EntryTop(cdfMin: int, total: int)
    requires total > cdfMin
    ensures ClampedStore(TableEntry(total, cdfMin, total)) == 255
  {
    var d := (total - cdfMin) as real;
    assert d / d == 1.0;
    RoundUnique(255.0, 255);
  }

  /** With a zero denominator every count up to the total gives NaN or -Infinity, stored as 0. */
  lemma EntryDegenerate(x: int, total: int)
    requires x <= total
    ensures TableEntry(x, total, total) == NaN || TableEntry(x, total, total) == NegInfinity
    ensures ClampedStore(TableEntry(x, total, total)) == 0
  {
  }

  /** The equalization table never decreases: a brighter channel value never maps below a
      darker one. */
  lemma TableMonotone(s: seq<int>, u: nat, v: nat)
    requires AllBytes(s) && |s| % 4 == 0
    requires u <= v < 256
    ensures ClampedStore(Table(s)[u]) <= ClampedStore(Table(s)[v])
  {
    var cdf, total := Cdf(s), |s| / 4;
    var cdfMin := FirstPositive(cdf);
    CountAtMostMonotone(s, total, u, v);
    CdfMinAtMostTotal(s);
    if total > cdfMin {
      EntryMonotone(cdf[u], cdf[v], cdfMin, total);
    } else {
      EntryDegenerate(cdf[u], total);
      EntryDegenerate(cdf[v], total);
    }
  }

  lemma CdfMinAtMostTotal(s: seq<int>)
    requires AllBytes(s) && |s| % 4 == 0
    ensures 0 <= FirstPositive(Cdf(s)) <= |s| / 4
  {
  }

  /** When every pixel lies in the lowest occupied bin (`totalPixels == cdfMin`), the table holds
      only NaN and -Infinity, and every colour byte is stored as 0. */
  lemma DegenerateTableIsZero(s: seq<int>, v: nat)
    requires AllBytes(s) && |s| % 4 == 0 && v < 256
    requires |s| / 4 == FirstPositive(Cdf(s))
    ensures Table(s)[v] == NaN || Table(s)[v] == NegInfinity
    ensures ClampedStore(Table(s)[v]) == 0
  {
    EntryDegenerate(Cdf(s)[v], |s| / 4);
  }

  /** With more pixels than the lowest occupied bin holds, channel value 255 maps to 255. */
  lemma TableTop(s: seq<int>)
    requires AllBytes(s) && |s| % 4 == 0
    requires |s| / 4 > FirstPositive(Cdf(s))
    ensures ClampedStore(Table(s)[255]) == 255
  {
    CountAtMostAll(s, |s| / 4);
    EntryTop(FirstPositive(Cdf(s)), |s| / 4);
  }

  /** A buffer whose pixels all share one brightness becomes black in every colour channel (the
      alpha channel stays): the missing divide-by-zero guard, as the program has it. */
  lemma EqualizeSingleBrightness(s: seq<int>, k: nat)
    requires AllBytes(s) && |s| % 4 == 0 && k < |s|
    requires forall p :: 0 <= p < |s| / 4 ==> Brightness(s, p) == Brightness(s, 0)
    ensures Equalize(s)[k] == if k % 4 < 3 then 0 else s[k]
  {
    var n := |s| / 4;
    var b := Brightness(s, 0);
    SingleBin(s, n, b);
    CountAtMostStep(s, n, b);
    var cdf := Cdf(s);
    if b > 0 {
      forall u | 0 <= u < b ensures cdf[u] <= 0 {
        CountAtMostMonotone(s, n, u, b - 1);
      }
      assert cdf[b] == n;
      FirstPositiveAt(cdf, b);
    } else {
      assert cdf[0] == n;
      FirstPositiveAt(cdf, 0);
    }
    if k % 4 < 3 {
      DegenerateTableIsZero(s, s[k]);
    }
    assert Equalize(s)[k] == ApplyTableAt(s, Table(s), k);
  }

  lemma {:induction false} SingleBin(s: seq<int>, n: nat, b: int)
    requires AllBytes(s) && 4 * n <= |s|
    requires forall p :: 0 <= p < |s| / 4 ==> Brightness(s, p) == b
    ensures CountBrightness(s, n, b) == n
    ensures b >= 1 ==> CountAtMost(s, n, b - 1) == 0
  {
    if n > 0 {
      SingleBin(s, n - 1, b);
    }
  }

  /** If `c` is non-decreasing, zero before `i` and positive at `i`, its first positive entry is `c[i]`. */
  lemma {:induction false} FirstPositiveAt(c: seq<int>, i: nat)
    requires i < |c| && c[i] > 0
    requires forall j :: 0 <= j < i ==> c[j] <= 0
    ensures FirstPositive(c) == c[i]
  {
    if i > 0 {
      FirstPositiveAt(c[1..], i - 1);
    }
  }

  // ===================== contrast =====================

  /** Math.min(255, Math.max(0, Math.round(factor * v + 128 * (1 - factor)))) */
  function ContrastValue(v: int, factor: real): (r: int)
    ensures IsByte(r)
  {
    Clamp(Round(factor * v as real + 128.0 * (1.0 - factor)))
  }

  /** The byte adjustContrast leaves at `k`: colour bytes through ContrastValue, alpha kept. */
  function ContrastAt(s: seq<int>, factor: real, k: nat): int
    requires k < |s|
  {
    if k % 4 < 3 then ContrastValue(s[k], factor) else s[k]
  }

  function Contrasted(s: seq<int>, factor: real): (r: seq<int>)
    ensures |r| == |s| && SameAlpha(s, r)
    ensures AllBytes(s) ==> AllBytes(r)
  {
    seq(|s|, k requires 0 <= k < |s| => ContrastAt(s, factor, k))
  }

  /** The channel loop of adjustContrast for the pixel at byte `i`. */
  method ContrastPixel(a: array<int>, ghost s: seq<int>, ghost target: seq<int>, factor: real, i: nat)
    requires a.Length == |s| == |target| && i + 3 < a.Length
    requires target[i] == ContrastValue(s[i], factor)
    requires target[i + 1] == ContrastValue(s[i + 1], factor)
    requires target[i + 2] == ContrastValue(s[i + 2], factor)
    requires target[i + 3] == s[i + 3]
    requires forall k :: 0 <= k < a.Length ==> a[k] == if k < i then target[k] else s[k]
    modifies a
    ensures forall k :: 0 <= k < a.Length ==> a[k] == if k < i + 4 then target[k] else s[k]
  {
    var j := 0;
    while j < 3
      invariant 0 <= j <= 3
      invariant forall k :: 0 <= k < a.Length ==> a[k] == if k < i + j then target[k] else s[k]
      modifies a
    {
      a[i + j] := ContrastValue(a[i + j], factor);
      j := j + 1;
    }
  }

  /** The four bytes of pixel `p` after adjustContrast. */
  lemma ContrastedPixel(s: seq<int>, factor: real, p: nat)
    requires 4 * p + 3 < |s|
    ensures Contrasted(s, factor)[4 * p] == ContrastValue(s[4 * p], factor)
    ensures Contrasted(s, factor)[4 * p + 1] == ContrastValue(s[4 * p + 1], factor)
    ensures Contrasted(s, factor)[4 * p + 2] == ContrastValue(s[4 * p + 2], factor)
    ensures Contrasted(s, factor)[4 * p + 3] == s[4 * p + 3]
  {
    ByteOfPixel(p, 0);
    ByteOfPixel(p, 1);
    ByteOfPixel(p, 2);
    ByteOfPixel(p, 3);
  }

  /** adjustContrast(data, factor) */
  method AdjustContrast(a: array<int>, factor: real)
    requires a.Length % 4 == 0
    modifies a
    ensures a[..] == Contrasted(old(a[..]), factor)
  {
    ghost var s := a[..];
    ghost var target := Contrasted(s, factor);
    ghost var n := a.Length / 4;
    assert a.Length == 4 * n;
    var i := 0;
    ghost var p := 0;
    while i < a.Length
      invariant 0 <= p <= n && i == 4 * p
      invariant forall k :: 0 <= k < a.Length ==> a[k] == if k < i then target[k] else s[k]
      modifies a
    {
      ContrastedPixel(s, factor, p);
      ContrastPixel(a, s, target, factor, i);
      i := i + 4;
      p := p + 1;
    }
    assert forall k :: 0 <= k < a.Length ==> a[k] == target[k];
  }

  /** A larger channel value never comes out smaller (for a non-negative factor). */
  lemma ContrastMonotone(u: int, v: int, factor: real)
    requires u <= v && factor >= 0.0
    ensures ContrastValue(u, factor) <= ContrastValue(v, factor)
  {
    var x := factor * u as real + 128.0 * (1.0 - factor);
    var y := factor * v as real + 128.0 * (1.0 - factor);
    assert factor * v as real - factor * u as real == factor * (v - u) as real;
    RoundMonotone(x, y);
    ClampMonotone(Round(x), Round(y));
  }

  /** With the factor 1.2 used by enhanceImage: black stays black, mid-grey 128 stays, white stays. */
  lemma ContrastAnchors()
    ensures ContrastValue(0, 1.2) == 0
    ensures ContrastValue(128, 1.2) == 128
    ensures ContrastValue(255, 1.2) == 255
  {
    RoundUnique(-25.6, -26);
    RoundUnique(128.0, 128);
    RoundUnique(280.4, 280);
  }

  /** The exact integer form of the 1.2 contrast: round(1.2 v - 25.6) == floor((6 v - 126) / 5),
      since 1.2 v - 25.6 is never halfway between two integers. */
  lemma ContrastClosedForm(v: int)
    ensures ContrastValue(v, 1.2) == Clamp((6 * v - 126) / 5)
  {
    var q := (6 * v - 126) / 5;
    var x := 1.2 * v as real + 128.0 * (1.0 - 1.2);
    assert 6 * v - 126 == 5 * q + (6 * v - 126) % 5;
    assert x == (6 * v - 128) as real / 5.0;
    RoundUnique(x, q);
  }

  // ===================== sharpen =====================

  /** The sharpening kernel [0,-1,0; -1,5,-1; 0,-1,0], row by row. */
  const Kernel: seq<int> := [0, -1, 0, -1, 5, -1, 0, -1, 0]

  /** Flat offset, from the centre byte, of kernel tap `j` (row `j / 3 - 1`, column `j % 3 - 1`). */
  function TapOffset(w: int, j: int): int
  {
    ((j / 3 - 1) * w + (j % 3 - 1)) * 4
  }

  lemma TapOffsetRange(w: nat, j: int)
    requires 0 <= j < 9
    ensures -4 * w - 4 <= TapOffset(w, j) <= 4 * w + 4
    ensures TapOffset(w, j) % 4 == 0
  {
    if j / 3 == 0 {
    } else if j / 3 == 1 {
    } else {
    }
  }

  /** Byte `k` is a colour byte of a pixel off the one-pixel border: a byte sharpenImage writes. */
  predicate Interior(w: nat, h: nat, k: nat)
    requires w > 0
  {
    k % 4 < 3 && 1 <= (k / 4) % w < w - 1 && 1 <= (k / 4) / w < h - 1
  }

  /** Every tap of the 3x3 window around an interior byte lies inside the buffer. */
  lemma InteriorBounds(w: nat, h: nat, k: nat)
    requires w > 0 && Interior(w, h, k)
    ensures 4 * w + 4 <= k && k + 4 * w + 4 < 4 * w * h
  {
    var p, c := k / 4, k % 4;
    assert k == 4 * p + c;
    var row, col := p / w, p % w;
    assert p == row * w + col;
    MulAtLeast(row, w);
    MulMonotone(row, h - 2, w);
    assert (h - 2) * w + w + w == h * w;
    assert 4 * w * h == 4 * (h * w);
  }

  /** The weighted sum of the first `j` kernel taps around byte `k`. */
  function TapSum(t: seq<int>, w: nat, k: int, j: nat): int
    requires j <= 9 && 4 * w + 4 <= k && k + 4 * w + 4 < |t|
  {
    if j == 0 then 0
    else
      TapOffsetRange(w, j - 1);
      TapSum(t, w, k, j - 1) + t[k + TapOffset(w, j - 1)] * Kernel[j - 1]
  }

  /** The full kernel sum is five times the centre minus the four edge neighbours. */
  lemma KernelSum(t: seq<int>, w: nat, k: int)
    requires 4 * w + 4 <= k && k + 4 * w + 4 < |t|
    ensures TapSum(t, w, k, 9) == 5 * t[k] - t[k - 4 * w] - t[k - 4] - t[k + 4] - t[k + 4 * w]
  {
    assert TapSum(t, w, k, 1) == 0;
    assert TapSum(t, w, k, 2) == -t[k - 4 * w];
    assert TapSum(t, w, k, 3) == -t[k - 4 * w];
    assert TapSum(t, w, k, 4) == -t[k - 4 * w] - t[k - 4];
    assert TapSum(t, w, k, 5) == 5 * t[k] - t[k - 4 * w] - t[k - 4];
    assert TapSum(t, w, k, 6) == 5 * t[k] - t[k - 4 * w] - t[k - 4] - t[k + 4];
    assert TapSum(t, w, k, 7) == 5 * t[k] - t[k - 4 * w] - t[k - 4] - t[k + 4];
    assert TapSum(t, w, k, 8) == 5 * t[k] - t[k - 4 * w] - t[k - 4] - t[k + 4] - t[k + 4 * w];
  }

  /** The byte sharpenImage leaves at `k`: the clamped kernel sum over the snapshot for interior
      colour bytes, the snapshot's byte elsewhere. */
  function SharpenAt(t: seq<int>, w: nat, h: nat, k: nat): int
    requires |t| == 4 * w * h && k < |t|
  {
    if Interior(w, h, k) then
      InteriorBounds(w, h, k);
      Clamp(TapSum(t, w, k, 9))
    else t[k]
  }

  function Sharpened(t: seq<int>, w: nat, h: nat): (r: seq<int>)
    requires |t| == 4 * w * h
    ensures |r| == |t| && SameAlpha(t, r)
    ensures AllBytes(t) ==> AllBytes(r)
  {
    seq(|t|, k requires 0 <= k < |t| => SharpenAt(t, w, h, k))
  }

  /** The kernel loops of sharpenImage for colour byte `c` of interior pixel `(x, y)`. */
  method Convolve(temp: seq<int>, w: nat, h: nat, y: nat, x: nat, c: nat) returns (sum: int)
    requires |temp| == 4 * w * h && 1 <= y < h - 1 && 1 <= x < w - 1 && c < 3
    ensures Interior(w, h, (y * w + x) * 4 + c) && (y * w + x) * 4 + c < |temp|
    ensures sum == SharpenSum(temp, w, h, (y * w + x) * 4 + c)
  {
    ghost var k := (y * w + x) * 4 + c;
    CentreIsInterior(w, h, y, x, c);
    InteriorBounds(w, h, k);
    sum := 0;
    var ky := -1;
    while ky <= 1
      invariant -1 <= ky <= 2
      invariant sum == TapSum(temp, w, k, (ky + 1) * 3)
    {
      var kx := -1;
      while kx <= 1
        invariant -1 <= kx <= 2
        invariant sum == TapSum(temp, w, k, (ky + 1) * 3 + kx + 1)
      {
        var idx := ((y + ky) * w + (x + kx)) * 4 + c;
        TapStep(temp, w, y, x, c, ky, kx);
        sum := sum + temp[idx] * Kernel[(ky + 1) * 3 + (kx + 1)];
        kx := kx + 1;
      }
      ky := ky + 1;
    }
  }

  /** One iteration of the kernel loops adds tap `(ky + 1) * 3 + kx + 1` to the running sum. */
  lemma TapStep(temp: seq<int>, w: nat, y: nat, x: nat, c: nat, ky: int, kx: int)
    requires -1 <= ky <= 1 && -1 <= kx <= 1
    requires 4 * w + 4 <= (y * w + x) * 4 + c && (y * w + x) * 4 + c + 4 * w + 4 < |temp|
    ensures 0 <= ((y + ky) * w + (x + kx)) * 4 + c < |temp|
    ensures TapSum(temp, w, (y * w + x) * 4 + c, (ky + 1) * 3 + kx + 2)
         == TapSum(temp, w, (y * w + x) * 4 + c, (ky + 1) * 3 + kx + 1)
            + temp[((y + ky) * w + (x + kx)) * 4 + c] * Kernel[(ky + 1) * 3 + (kx + 1)]
  {
    var k := (y * w + x) * 4 + c;
    var j := (ky + 1) * 3 + kx + 1;
    TapIndex(w, y, x, c, ky, kx);
    TapOffsetRange(w, j);
  }

  /** The unclamped kernel sum at an interior byte. */
  function SharpenSum(t: seq<int>, w: nat, h: nat, k: nat): int
    requires |t| == 4 * w * h && k < |t| && w > 0 && Interior(w, h, k)
  {
    InteriorBounds(w, h, k);
    TapSum(t, w, k, 9)
  }

  lemma CentreIsInterior(w: nat, h: nat, y: nat, x: nat, c: nat)
    requires 1 <= y < h - 1 && 1 <= x < w - 1 && c < 3
    ensures (y * w + x) * 4 + 3 < 4 * w * h
    ensures Interior(w, h, (y * w + x) * 4 + c)
  {
    var p := y * w + x;
    assert 4 * w * h == 4 * (w * h);
    PixelCoords(w, y, x);
    PixelInImage(w, h, x, y);
    ByteOfPixel(p, c);
  }

  /** The source's tap index is the centre byte plus the tap's offset. */
  lemma TapIndex(w: nat, y: nat, x: nat, c: nat, ky: int, kx: int)
    requires -1 <= ky <= 1 && -1 <= kx <= 1
    ensures ((y + ky) * w + (x + kx)) * 4 + c == (y * w + x) * 4 + c + TapOffset(w, (ky + 1) * 3 + kx + 1)
  {
    var j := (ky + 1) * 3 + kx + 1;
    assert j / 3 == ky + 1 && j % 3 == kx + 1;
    assert (y + ky) * w == y * w + ky * w;
  }

  /** The bytes of the first pixel of row `y` are border bytes. */
  lemma RowStartKept(t: seq<int>, w: nat, h: nat, y: nat)
    requires |t| == 4 * w * h
    ensures forall k :: 4 * (y * w) <= k < 4 * (y * w + 1) && k < |t| ==> SharpenAt(t, w, h, k) == t[k]
  {
    forall k | 4 * (y * w) <= k < 4 * (y * w + 1) && k < |t|
      ensures SharpenAt(t, w, h, k) == t[k]
    {
      RowBelowHeight(w, h, k / 4);
      PixelOnRow(w, y, k / 4);
    }
  }

  /** The bytes of the first row are border bytes. */
  lemma FirstRowKept(t: seq<int>, w: nat, h: nat)
    requires |t| == 4 * w * h
    ensures forall k :: 0 <= k < 4 * w && k < |t| ==> SharpenAt(t, w, h, k) == t[k]
  {
    forall k | 0 <= k < 4 * w && k < |t|
      ensures SharpenAt(t, w, h, k) == t[k]
    {
      PixelOnRow(w, 0, k / 4);
    }
  }

  /** The bytes of row `y` from column `x` on are border bytes once `x >= w - 1`. */
  lemma RowEndKept(t: seq<int>, w: nat, h: nat, y: nat, x: nat)
    requires |t| == 4 * w * h && x >= w - 1
    ensures forall k :: 4 * (y * w + x) <= k < 4 * (y * w + w) && k < |t| ==> SharpenAt(t, w, h, k) == t[k]
  {
    forall k | 4 * (y * w + x) <= k < 4 * (y * w + w) && k < |t|
      ensures SharpenAt(t, w, h, k) == t[k]
    {
      RowBelowHeight(w, h, k / 4);
      PixelOnRow(w, y, k / 4);
    }
  }

  /** The bytes from row `y` on are border bytes once `y >= h - 1`. */
  lemma RowsAfterKept(t: seq<int>, w: nat, h: nat, y: nat)
    requires |t| == 4 * w * h && y >= h - 1
    ensures forall k :: 4 * (y * w) <= k < |t| ==> SharpenAt(t, w, h, k) == t[k]
  {
    forall k | 4 * (y * w) <= k < |t|
      ensures SharpenAt(t, w, h, k) == t[k]
    {
      RowBelowHeight(w, h, k / 4);
      RowAtLeast(w, y, k / 4);
    }
  }

  /** The channel loop of sharpenImage for interior pixel `(x, y)`: its three colour bytes
      receive the clamped kernel sums; every other byte is kept. `target` is the buffer the
      whole filter produces, as far as this pixel needs it. */
  method SharpenPixel(a: array<int>, temp: seq<int>, ghost target: seq<int>, w: nat, h: nat, y: nat, x: nat, ghost i: nat)
    requires a.Length == |temp| == |target| == 4 * w * h && 1 <= y < h - 1 && 1 <= x < w - 1
    requires i == (y * w + x) * 4 && i + 3 < |temp|
    requires target[i] == SharpenAt(temp, w, h, i)
    requires target[i + 1] == SharpenAt(temp, w, h, i + 1)
    requires target[i + 2] == SharpenAt(temp, w, h, i + 2)
    requires target[i + 3] == temp[i + 3]
    requires forall k :: 0 <= k < a.Length ==> a[k] == if k < i then target[k] else temp[k]
    modifies a
    ensures forall k :: 0 <= k < a.Length ==> a[k] == if k < i + 4 then target[k] else temp[k]
  {
    var c := 0;
    while c < 3
      invariant 0 <= c <= 3
      invariant forall k :: 0 <= k < a.Length ==> a[k] == if k < i + c then target[k] else temp[k]
      modifies a
    {
      var sum := Convolve(temp, w, h, y, x, c);
      var idx := (y * w + x) * 4 + c;
      assert idx == i + c;
      assert target[idx] == Clamp(sum);
      a[idx] := Clamp(sum);
      c := c + 1;
    }
  }

  /** The column loop of sharpenImage for interior row `y`. */
  method SharpenRow(a: array<int>, temp: seq<int>, ghost target: seq<int>, w: nat, h: nat, y: nat)
    requires a.Length == |temp| == 4 * w * h && 1 <= y < h - 1 && target == Sharpened(temp, w, h)
    requires forall k :: 0 <= k < a.Length ==> a[k] == if k < 4 * (y * w) then target[k] else temp[k]
    modifies a
    ensures forall k :: 0 <= k < a.Length ==> a[k] == if k < 4 * (y * w + w) then target[k] else temp[k]
  {
    RowStartKept(temp, w, h, y);
    var x := 1;
    while x < w - 1
      invariant 1 <= x && (w >= 2 ==> x <= w - 1)
      invariant forall k :: 0 <= k < a.Length ==> a[k] == if k < 4 * (y * w + x) then target[k] else temp[k]
      modifies a
    {
      CentreIsInterior(w, h, y, x, 0);
      ByteOfPixel(y * w + x, 3);
      assert 4 * (y * w + x) == (y * w + x) * 4 && 4 * (y * w + x + 1) == (y * w + x) * 4 + 4;
      SharpenPixel(a, temp, target, w, h, y, x, (y * w + x) * 4);
      x := x + 1;
    }
    RowEndKept(temp, w, h, y, x);
  }

  /** sharpenImage(data, width, height): the interior is convolved from the snapshot `temp`
      taken before any write. */
  method SharpenImage(a: array<int>, w: nat, h: nat)
    requires a.Length == 4 * w * h
    modifies a
    ensures a[..] == Sharpened(old(a[..]), w, h)
  {
    var temp := a[..];
    ghost var target := Sharpened(temp, w, h);
    FirstRowKept(temp, w, h);
    var y := 1;
    while y < h - 1
      invariant 1 <= y && (h >= 2 ==> y <= h - 1)
      invariant forall k :: 0 <= k < a.Length ==> a[k] == if k < 4 * (y * w) then target[k] else temp[k]
      modifies a
    {
      SharpenRow(a, temp, target, w, h, y);
      assert 4 * ((y + 1) * w) == 4 * (y * w + w);
      y := y + 1;
    }
    RowsAfterKept(temp, w, h, y);
    assert forall k :: 0 <= k < a.Length ==> a[k] == target[k];
  }

  /** Pixels of the first and last rows and columns keep all four bytes. */
  lemma SharpenKeepsBorder(t: seq<int>, w: nat, h: nat, x: nat, y: nat, c: nat)
    requires |t| == 4 * w * h && x < w && y < h && c < 4
    requires x == 0 || x == w - 1 || y == 0 || y == h - 1
    ensures (y * w + x) * 4 + c < |t|
    ensures Sharpened(t, w, h)[(y * w + x) * 4 + c] == t[(y * w + x) * 4 + c]
  {
    var p := y * w + x;
    PixelCoords(w, y, x);
    PixelInImage(w, h, x, y);
    ByteOfPixel(p, c);
    assert 4 * w * h == 4 * (w * h);
    var k := p * 4 + c;
    assert !Interior(w, h, k);
    assert Sharpened(t, w, h)[k] == SharpenAt(t, w, h, k);
  }

  /** A buffer less than three pixels wide or high has no interior and is left as it is. */
  lemma SharpenSmallUnchanged(t: seq<int>, w: nat, h: nat)
    requires |t| == 4 * w * h && (w < 3 || h < 3)
    ensures Sharpened(t, w, h) == t
  {
    assert forall k :: 0 <= k < |t| ==> Sharpened(t, w, h)[k] == t[k];
  }

  /** Moving by whole pixels keeps the channel. */
  lemma SameChannel(k: int, d: int)
    requires k + 4 * d >= 0 && k >= 0
    ensures (k + 4 * d) % 4 == k % 4
  {
    var q := k / 4;
    assert k == 4 * q + k % 4;
    assert k + 4 * d == 4 * (q + d) + k % 4;
  }

  lemma SharpenUniformAt(t: seq<int>, w: nat, h: nat, colour: seq<int>, k: nat)
    requires |t| == 4 * w * h && |colour| == 4 && AllBytes(colour) && IsUniform(t, colour)
    requires k < |t|
    ensures SharpenAt(t, w, h, k) == t[k]
  {
    if Interior(w, h, k) {
      InteriorBounds(w, h, k);
      KernelSum(t, w, k);
      SameChannel(k, -(w as int));
      SameChannel(k, w);
      SameChannel(k, -1);
      SameChannel(k, 1);
      var v := colour[k % 4];
      assert t[k] == v && t[k - 4 * w] == v && t[k + 4 * w] == v && t[k - 4] == v && t[k + 4] == v;
    }
  }

  /** The kernel weights sum to 1, so a single-colour buffer is a fixed point of sharpening. */
  lemma SharpenUniformUnchanged(t: seq<int>, w: nat, h: nat, colour: seq<int>)
    requires |t| == 4 * w * h && |colour| == 4 && AllBytes(colour) && IsUniform(t, colour)
    ensures Sharpened(t, w, h) == t
  {
    forall k | 0 <= k < |t|
      ensures Sharpened(t, w, h)[k] == t[k]
    {
      SharpenUniformAt(t, w, h, colour, k);
    }
  }

  // ===================== median noise reduction =====================

  const WindowSize: int := 3

  /** `temp[idx]` in JavaScript: `undefined` outside the buffer. */
  function Lookup(t: seq<int>, idx: int): (v: Option<int>)
    ensures v.Some? <==> 0 <= idx < |t|
    ensures v.Some? ==> v.value == t[idx]
  {
    if 0 <= idx < |t| then Some(t[idx]) else None
  }

  /** The nine values reduceNoise gathers for channel `c` around the pixel at byte `i`, row by
      row; the neighbours are found by flat offsets only, so at column 0 and column w - 1 they
      wrap to the adjacent row. */
  function Window(t: seq<int>, w: nat, i: int, c: int): (vals: seq<Option<int>>)
    ensures |vals| == 9
  {
    seq(9, j requires 0 <= j < 9 => Lookup(t, i + ((j / 3 - 1) * w + (j % 3 - 1)) * 4 + c))
  }

  /** The byte a Uint8ClampedArray keeps for a gathered value; `undefined` becomes 0. */
  function StoreValue(o: Option<int>): (r: int)
    ensures IsByte(r)
    ensures o.Some? && IsByte(o.value) ==> r == o.value
  {
    if o.Some? then Clamp(o.value) else 0
  }

  /** Byte `i` starts a pixel that reduceNoise visits: all rows but the first and last. */
  predicate InWalk(n: int, w: nat, i: int)
  {
    4 * w <= i < n - 4 * w
  }

  /** The byte reduceNoise leaves at `k`: `values[4]` of the sorted window for the colour bytes
      of visited pixels, the snapshot's byte elsewhere. */
  function DenoiseAt(t: seq<int>, w: nat, k: nat): int
    requires k < |t|
  {
    var c := k % 4;
    if c < 3 && InWalk(|t|, w, k - c) then Median(t, w, k - c, c) else t[k]
  }

  /** The byte stored for channel `c` of the pixel at byte `i`: the middle entry of its sorted
      window. */
  function Median(t: seq<int>, w: nat, i: int, c: int): int
  {
    StoreValue(JsSort(Window(t, w, i, c))[9 / 2])
  }

  function Denoised(t: seq<int>, w: nat): (r: seq<int>)
    ensures |r| == |t| && SameAlpha(t, r)
    ensures AllBytes(t) ==> AllBytes(r)
  {
    seq(|t|, k requires 0 <= k < |t| => DenoiseAt(t, w, k))
  }

  /** The gathering loops of reduceNoise for one channel of one pixel. */
  method GatherWindow(temp: seq<int>, w: nat, i: int, c: int) returns (values: seq<Option<int>>)
    ensures values == Window(temp, w, i, c)
  {
    var halfWindow := WindowSize / 2;
    values := [];
    var dy := -halfWindow;
    while dy <= halfWindow
      invariant -1 <= dy <= 2
      invariant values == Window(temp, w, i, c)[..(dy + 1) * 3]
    {
      var dx := -halfWindow;
      while dx <= halfWindow
        invariant -1 <= dx <= 2
        invariant values == Window(temp, w, i, c)[..(dy + 1) * 3 + dx + 1]
      {
        var idx := i + (dy * w + dx) * 4 + c;
        ghost var j := (dy + 1) * 3 + dx + 1;
        assert j / 3 - 1 == dy && j % 3 - 1 == dx;
        values := values + [Lookup(temp, idx)];
        dx := dx + 1;
      }
      dy := dy + 1;
    }
  }

  /** reduceNoise never writes an alpha byte. */
  lemma DenoiseKeepsAlpha(t: seq<int>, w: nat, p: int)
    requires |t| % 4 == 0 && 0 <= 4 * p + 3 < |t|
    ensures Denoised(t, w)[4 * p + 3] == t[4 * p + 3]
  {
    var k := 4 * p + 3;
    ByteOfPixel(p, 3);
    assert Denoised(t, w)[k] == DenoiseAt(t, w, k);
  }

  /** One channel of one pixel: gather the window, sort it, take the middle entry. */
  method MedianOfWindow(temp: seq<int>, w: nat, i: int, c: int) returns (v: int)
    ensures v == Median(temp, w, i, c)
  {
    var values := GatherWindow(temp, w, i, c);
    values := JsSort(values);
    v := StoreValue(values[|values| / 2]);
  }

  /** Colour byte `c` of visited pixel `p` receives the median of its window. */
  lemma DenoiseChannel(t: seq<int>, w: nat, p: int, c: int)
    requires |t| % 4 == 0 && 0 <= c < 3 && InWalk(|t|, w, 4 * p)
    ensures 4 * p + 3 < |t| && Denoised(t, w)[4 * p + c] == Median(t, w, 4 * p, c)
  {
    var i := 4 * p;
    var m := |t| / 4;
    assert |t| == 4 * m;
    var k := i + c;
    ByteOfPixel(p, c);
    assert k % 4 == c && k - k % 4 == i;
    assert i + 4 <= |t|;
    assert Denoised(t, w)[k] == DenoiseAt(t, w, k);
    assert DenoiseAt(t, w, k) == Median(t, w, k - k % 4, k % 4);
  }

  /** The channel loop of reduceNoise for the pixel at byte `i`: each colour byte receives
      `values[4]` of its sorted window; every other byte is kept. */
  method DenoisePixel(a: array<int>, temp: seq<int>, ghost target: seq<int>, w: nat, i: int, ghost p: int)
    requires a.Length == |temp| && |temp| % 4 == 0 && target == Denoised(temp, w)
    requires i == 4 * p && InWalk(|temp|, w, i)
    requires forall k :: 0 <= k < a.Length ==> a[k] == if k < i then target[k] else temp[k]
    modifies a
    ensures forall k :: 0 <= k < a.Length ==> a[k] == if k < i + 4 then target[k] else temp[k]
  {
    var c := 0;
    while c < 3
      invariant 0 <= c <= 3
      invariant forall k :: 0 <= k < a.Length ==> a[k] == if k < i + c then target[k] else temp[k]
      modifies a
    {
      DenoiseChannel(temp, w, p, c);
      var v := MedianOfWindow(temp, w, i, c);
      a[i + c] := v;
      c := c + 1;
    }
    DenoiseKeepsAlpha(temp, w, p);
  }

  /** reduceNoise(data, width): a 3x3 median over the snapshot `temp` for every pixel between the
      first and the last row. */
  method ReduceNoise(a: array<int>, w: nat)
    requires a.Length % 4 == 0
    modifies a
    ensures a[..] == Denoised(old(a[..]), w)
  {
    var temp := a[..];
    ghost var target := Denoised(temp, w);
    var halfWindow := WindowSize / 2;
    assert halfWindow * w * 4 == 4 * w;
    DenoiseKeepsRows(temp, w);
    ghost var m := a.Length / 4;
    assert a.Length == 4 * m;
    var i := halfWindow * w * 4;
    ghost var p := w;
    while i < a.Length - halfWindow * w * 4
      invariant 4 * w <= i && i == 4 * p
      invariant forall k :: 0 <= k < a.Length ==> a[k] == if k < i then target[k] else temp[k]
      modifies a
    {
      DenoisePixel(a, temp, target, w, i, p);
      i := i + 4;
      p := p + 1;
    }
    assert forall k :: 0 <= k < a.Length ==> a[k] == target[k];
  }

  // ---- properties of the median filter ----

  /** For a visited pixel of an image at least one pixel wide, the only reads that fall outside
      the buffer are the top-left neighbour of the first visited pixel and the bottom-right
      neighbour of the last one; they are `undefined` exactly there. */
  lemma WindowEdges(t: seq<int>, w: nat, i: int, c: int)
    requires |t| % 4 == 0 && i % 4 == 0 && w >= 1 && 0 <= c < 3 && InWalk(|t|, w, i)
    ensures forall j :: 1 <= j < 8 ==> Window(t, w, i, c)[j].Some?
    ensures Window(t, w, i, c)[0].None? <==> i == 4 * w
    ensures Window(t, w, i, c)[8].None? <==> i + 4 * w + 4 == |t|
  {
    var W := Window(t, w, i, c);
    var q, m := i / 4, |t| / 4;
    assert i == 4 * q && |t| == 4 * m;
    assert i + 4 * w + 4 <= |t|;
    assert W[0] == Lookup(t, i - 4 * w - 4 + c);
    assert W[8] == Lookup(t, i + 4 * w + 4 + c);
    WindowInner(t, w, i, c);
  }

  lemma WindowInner(t: seq<int>, w: nat, i: int, c: int)
    requires |t| % 4 == 0 && i % 4 == 0 && w >= 1 && 0 <= c < 3 && InWalk(|t|, w, i)
    ensures forall j :: 1 <= j < 8 ==> Window(t, w, i, c)[j].Some?
  {
    var W := Window(t, w, i, c);
    var q, m := i / 4, |t| / 4;
    assert i == 4 * q && |t| == 4 * m;
    assert i + 4 * w + 4 <= |t|;
    forall j | 1 <= j < 8
      ensures W[j].Some?
    {
      var d := (j / 3 - 1) * w + (j % 3 - 1);
      assert -(w as int) <= d <= w;
      assert W[j] == Lookup(t, i + d * 4 + c);
    }
  }

  /** With at least seven numbers in the window, `values[4]` of the sorted window is a number
      read from the window itself: reduceNoise replaces a byte by a value of the same channel
      of one of its nine neighbours (itself included). */
  lemma MedianIsWindowValue(t: seq<int>, w: nat, i: int, c: int)
    requires |t| % 4 == 0 && i % 4 == 0 && w >= 1 && 0 <= c < 3 && InWalk(|t|, w, i)
    requires AllBytes(t)
    ensures |Defined(Window(t, w, i, c))| >= 7
    ensures Median(t, w, i, c) == Sort(Defined(Window(t, w, i, c)))[4]
    ensures exists j :: 0 <= j < 9 && Window(t, w, i, c)[j] == Some(Median(t, w, i, c))
  {
    var W := Window(t, w, i, c);
    WindowEdges(t, w, i, c);
    DefinedAtLeast(W, 1, 8);
    var D := Defined(W);
    JsSortShape(W);
    assert JsSort(W)[4] == Some(Sort(D)[4]);
    SortedElement(D, 4);
    var v := Sort(D)[4];
    DefinedMembers(W, v);
    assert Some(v) in W;
    var j :| 0 <= j < 9 && W[j] == Some(v);
    assert IsByte(v);
  }

  /** The first and the last row of the buffer (as far as the byte count and `w` say) are kept. */
  lemma DenoiseKeepsEdgeRows(t: seq<int>, w: nat, k: nat)
    requires |t| % 4 == 0 && k < |t| && (k < 4 * w || k >= |t| - 4 * w)
    ensures DenoiseAt(t, w, k) == t[k]
  {
    var q, c, m := k / 4, k % 4, |t| / 4;
    assert k == 4 * q + c && 0 <= c < 4 && |t| == 4 * m;
    if k >= |t| - 4 * w {
      assert q >= m - w;
    }
    assert !InWalk(|t|, w, 4 * q);
  }

  lemma DenoiseKeepsRows(t: seq<int>, w: nat)
    requires |t| % 4 == 0
    ensures forall k :: 0 <= k < |t| && (k < 4 * w || k >= |t| - 4 * w) ==> Denoised(t, w)[k] == t[k]
  {
    forall k | 0 <= k < |t| && (k < 4 * w || k >= |t| - 4 * w)
      ensures Denoised(t, w)[k] == t[k]
    {
      DenoiseKeepsEdgeRows(t, w, k);
    }
  }

  /** An image fewer than three rows high is returned unchanged. */
  lemma DenoiseShortUnchanged(t: seq<int>, w: nat, h: nat)
    requires |t| == 4 * w * h && h < 3
    ensures Denoised(t, w) == t
  {
    MulMonotone(h, 2, w);
    assert |t| == 4 * (h * w) <= 8 * w;
    DenoiseKeepsRows(t, w);
  }

  /** Every number in the window of channel `c` is a byte of channel `c`. */
  lemma WindowUniform(t: seq<int>, w: nat, q: int, c: int, colour: seq<int>)
    requires |colour| == 4 && IsUniform(t, colour) && 0 <= c < 4
    ensures forall j :: 0 <= j < 9 && Window(t, w, 4 * q, c)[j].Some? ==> Window(t, w, 4 * q, c)[j].value == colour[c]
  {
    var W := Window(t, w, 4 * q, c);
    forall j | 0 <= j < 9 && W[j].Some?
      ensures W[j].value == colour[c]
    {
      var d := (j / 3 - 1) * w + (j % 3 - 1);
      var idx := 4 * q + d * 4 + c;
      assert W[j] == Lookup(t, idx);
      assert idx == 4 * (q + d) + c;
      ByteOfPixel(q + d, c);
    }
  }

  lemma DenoiseUniformAt(t: seq<int>, w: nat, colour: seq<int>, k: nat)
    requires |t| % 4 == 0 && w >= 1 && |colour| == 4 && AllBytes(colour) && IsUniform(t, colour)
    requires k < |t|
    ensures DenoiseAt(t, w, k) == t[k]
  {
    var q, c := k / 4, k % 4;
    assert k == 4 * q + c;
    var i := 4 * q;
    if c < 3 && InWalk(|t|, w, i) {
      assert i % 4 == 0;
      assert AllBytes(t);
      MedianIsWindowValue(t, w, i, c);
      WindowUniform(t, w, q, c, colour);
    }
  }

  /** A single-colour buffer is a fixed point of the median filter. */
  lemma DenoiseUniformUnchanged(t: seq<int>, w: nat, h: nat, colour: seq<int>)
    requires |t| == 4 * w * h && |colour| == 4 && AllBytes(colour) && IsUniform(t, colour)
    ensures Denoised(t, w) == t
  {
    if w == 0 {
      assert |t| == 0;
    } else {
      var n := w * h;
      assert |t| == 4 * n;
      forall k | 0 <= k < |t|
        ensures Denoised(t, w)[k] == t[k]
      {
        DenoiseUniformAt(t, w, colour, k);
      }
    }
  }

  // ===================== the whole enhancer =====================

  /** The buffer enhanceImage returns: equalization, contrast 1.2, sharpening, median filter. */
  function Enhanced(s: seq<int>, w: nat, h: nat): (r: seq<int>)
    requires IsBuffer(s, w, h)
    ensures IsBuffer(r, w, h) && SameAlpha(s, r)
  {
    assert |s| == 4 * (w * h);
    Denoised(Sharpened(Contrasted(Equalize(s), 1.2), w, h), w)
  }

  /** enhanceImage(imageData): the four stages run on a copy, so the input is left as it is. */
  method EnhanceImage(img: ImageData) returns (r: ImageData)
    requires img.Valid()
    ensures fresh(r) && fresh(r.data)
    ensures r.width == img.width && r.height == img.height
    ensures r.data[..] == Enhanced(img.data[..], img.width, img.height)
    ensures r.Valid()
  {
    var n := img.data.Length;
    var enhanced := new int[n];
    forall k | 0 <= k < n {
      enhanced[k] := img.data[k];
    }
    ghost var s := enhanced[..];
    assert s == img.data[..];
    assert n == 4 * (img.width * img.height);
    EqualizeHistogram(enhanced);
    AdjustContrast(enhanced, 1.2);
    SharpenImage(enhanced, img.width, img.height);
    ReduceNoise(enhanced, img.width);
    r := new ImageData(enhanced, img.width, img.height);
  }

  /** Pixels of one colour all fall in one histogram bin, so equalization blacks out every colour
      byte and keeps alpha. */
  lemma EqualizeUniform(s: seq<int>, colour: seq<int>)
    requires AllBytes(s) && |s| % 4 == 0 && |colour| == 4 && IsUniform(s, colour)
    ensures IsUniform(Equalize(s), [0, 0, 0, colour[3]])
  {
    var n := |s| / 4;
    assert |s| == 4 * n;
    forall p | 0 <= p < n
      ensures Brightness(s, p) == Brightness(s, 0)
    {
      ByteOfPixel(p, 0);
      ByteOfPixel(p, 1);
      ByteOfPixel(p, 2);
    }
    forall k | 0 <= k < |s|
      ensures Equalize(s)[k] == [0, 0, 0, colour[3]][k % 4]
    {
      EqualizeSingleBrightness(s, k);
    }
  }

  /** Contrast maps a single-colour buffer to a single-colour buffer. */
  lemma ContrastUniform(s: seq<int>, colour: seq<int>, factor: real)
    requires |colour| == 4 && IsUniform(s, colour)
    ensures IsUniform(Contrasted(s, factor),
      [ContrastValue(colour[0], factor), ContrastValue(colour[1], factor), ContrastValue(colour[2], factor), colour[3]])
  {
  }

  /** The first two stages turn a single-colour buffer black, alpha kept. */
  lemma ContrastedEqualizedUniform(s: seq<int>, colour: seq<int>)
    requires AllBytes(s) && |s| % 4 == 0 && |colour| == 4 && IsUniform(s, colour)
    ensures IsUniform(Contrasted(Equalize(s), 1.2), [0, 0, 0, colour[3]])
  {
    var black := [0, 0, 0, colour[3]];
    EqualizeUniform(s, colour);
    ContrastUniform(Equalize(s), black, 1.2);
    ContrastAnchors();
    assert [ContrastValue(0, 1.2), ContrastValue(0, 1.2), ContrastValue(0, 1.2), colour[3]] == black;
  }

  /** Sharpening and the median filter both leave a single-colour buffer as it is. */
  lemma UniformLaterStages(c: seq<int>, w: nat, h: nat, colour: seq<int>)
    requires |c| == 4 * w * h && |colour| == 4 && AllBytes(colour) && IsUniform(c, colour)
    ensures Denoised(Sharpened(c, w, h), w) == c
  {
    SharpenUniformUnchanged(c, w, h, colour);
    DenoiseUniformUnchanged(c, w, h, colour);
  }

  /** enhanceImage turns any single-colour image black, keeping its alpha: equalization divides
      0 by 0 for such an image, and the later stages keep black black. */
  lemma EnhanceSingleColour(s: seq<int>, w: nat, h: nat, colour: seq<int>)
    requires IsBuffer(s, w, h) && |colour| == 4 && IsUniform(s, colour)
    ensures IsUniform(Enhanced(s, w, h), [0, 0, 0, colour[3]])
  {
    if |s| > 0 {
      var black := [0, 0, 0, colour[3]];
      assert AllBytes(black) by {
        assert s[3] == colour[3];
      }
      assert |s| % 4 == 0 by {
        assert |s| == 4 * (w * h);
      }
      ContrastedEqualizedUniform(s, colour);
      UniformLaterStages(Contrasted(Equalize(s), 1.2), w, h, black);
    }
  }
}
