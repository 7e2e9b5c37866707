// The 16-to-8-bit tone map: a histogram gives two order statistics of the samples, and an
// affine map between them gives each output byte.

/** Counting, sorting and order statistics on sequences of integers. */
module OrderStatistics {

  /** How many elements are smaller than v. */
  function CountBelow(s: seq<int>, v: int): (n: nat)
    ensures n <= |s|
  {
    if s == [] then 0
    else CountBelow(s[..|s| - 1], v) + (if s[|s| - 1] < v then 1 else 0)
  }

  ghost predicate Sorted(s: seq<int>) {
    forall i, j :: 0 <= i <= j < |s| ==> s[i] <= s[j]
  }

  function Insert(s: seq<int>, x: int): (r: seq<int>)
    ensures |r| == |s| + 1
  {
    if s == [] || s[|s| - 1] <= x then s + [x]
    else Insert(s[..|s| - 1], x) + [s[|s| - 1]]
  }

  /** The elements in ascending order. */
  function Sort(s: seq<int>): (r: seq<int>)
    ensures |r| == |s|
  {
    if s == [] then [] else Insert(Sort(s[..|s| - 1]), s[|s| - 1])
  }

  lemma {:induction false} CountSnoc(s: seq<int>, x: int, v: int)
    ensures CountBelow(s + [x], v) == CountBelow(s, v) + (if x < v then 1 else 0)
  {
    assert (s + [x])[..|s|] == s;
  }

  lemma {:induction false} InsertCount(s: seq<int>, x: int, v: int)
    ensures CountBelow(Insert(s, x), v) == CountBelow(s, v) + (if x < v then 1 else 0)
  {
    if s == [] || s[|s| - 1] <= x {
      CountSnoc(s, x, v);
    } else {
      InsertCount(s[..|s| - 1], x, v);
      CountSnoc(Insert(s[..|s| - 1], x), s[|s| - 1], v);
    }
  }

  lemma {:induction false} InsertMultiset(s: seq<int>, x: int)
    ensures multiset(Insert(s, x)) == multiset(s) + multiset{x}
  {
    if s != [] && s[|s| - 1] > x {
      InsertMultiset(s[..|s| - 1], x);
      assert s == s[..|s| - 1] + [s[|s| - 1]];
    }
  }

  lemma {:induction false} InsertSorted(s: seq<int>, x: int)
    requires Sorted(s)
    ensures Sorted(Insert(s, x))
    ensures forall i :: 0 <= i < |s| + 1 ==> Insert(s, x)[i] <= (if s != [] && s[|s| - 1] > x then s[|s| - 1] else x)
  {
    if s != [] && s[|s| - 1] > x {
      InsertSorted(s[..|s| - 1], x);
    }
  }

  /** Sorting gives a sorted permutation and keeps every count. */
  lemma {:induction false} SortCorrect(s: seq<int>)
    ensures Sorted(Sort(s)) && multiset(Sort(s)) == multiset(s)
  {
    if s != [] {
      var front, last := s[..|s| - 1], s[|s| - 1];
      assert s == front + [last];
      SortCorrect(front);
      InsertSorted(Sort(front), last);
      InsertMultiset(Sort(front), last);
    }
  }

  lemma {:induction false} SortCount(s: seq<int>, v: int)
    ensures CountBelow(Sort(s), v) == CountBelow(s, v)
  {
    if s != [] {
      SortCount(s[..|s| - 1], v);
      InsertCount(Sort(s[..|s| - 1]), s[|s| - 1], v);
    }
  }

  lemma {:induction false} CountMonotone(s: seq<int>, v: int, w: int)
    requires v <= w
    ensures CountBelow(s, v) <= CountBelow(s, w)
  {
    if s != [] {
      CountMonotone(s[..|s| - 1], v, w);
    }
  }

  /** In sorted order the counts say where the values are. */
  lemma {:induction false} SortedCount(t: seq<int>, m: nat, v: int)
    requires Sorted(t) && m <= |t|
    ensures m < |t| && v <= t[m] ==> CountBelow(t, v) <= m
    ensures m > 0 && t[m - 1] < v ==> CountBelow(t, v) >= m
  {
    if m < |t| {
      SortedCount(t[..|t| - 1], m, v);
    }
    if m == |t| && m > 0 && t[m - 1] < v {
      AllBelow(t, v);
    }
  }

  lemma {:induction false} AllBelow(t: seq<int>, v: int)
    requires forall i :: 0 <= i < |t| ==> t[i] < v
    ensures CountBelow(t, v) == |t|
  {
    if t != [] {
      AllBelow(t[..|t| - 1], v);
    }
  }

  lemma {:induction false} NoneBelow(t: seq<int>, v: int)
    requires forall i :: 0 <= i < |t| ==> t[i] >= v
    ensures CountBelow(t, v) == 0
  {
    if t != [] {
      NoneBelow(t[..|t| - 1], v);
    }
  }

  /** v is the k-th smallest element exactly when fewer than k elements are below v and at least
      k are below v + 1. */
  lemma RankIsSorted(s: seq<int>, k: nat, v: int)
    requires 1 <= k <= |s|
    ensures v == Sort(s)[k - 1] <==> CountBelow(s, v) < k <= CountBelow(s, v + 1)
  {
    SortCorrect(s);
    SortCount(s, v);
    SortCount(s, v + 1);
    SortedRank(Sort(s), k, v);
  }

  lemma SortedRank(t: seq<int>, k: nat, v: int)
    requires Sorted(t) && 1 <= k <= |t|
    ensures v == t[k - 1] <==> CountBelow(t, v) < k <= CountBelow(t, v + 1)
  {
    var w := t[k - 1];
    SortedCount(t, k - 1, w);
    SortedCount(t, k, w + 1);
    if v < w {
      CountMonotone(t, v + 1, w);
    } else if w < v {
      CountMonotone(t, w + 1, v);
    }
  }
}

module ToneMap {
  import opened Bytes
  import opened OrderStatistics

  const LEVELS: int := 65536
  const SIGMA: int := 2304
  // What the signed variant adds to a sample to index the histogram; the unsigned one adds 0.
  const SIGNED_BIAS: int := 32768

  /** The samples fit 16 bits: 0..65535 with bias 0, -32768..32767 with the signed bias. */
  ghost predicate InRange(s: seq<int>, bias: int) {
    forall i :: 0 <= i < |s| ==> -bias <= s[i] < LEVELS - bias
  }

  /** The lower threshold: the 2304th smallest sample, or 0 when there are fewer. */
  function Lo(s: seq<int>): int {
    if |s| < SIGMA then 0 else Sort(s)[SIGMA - 1]
  }

  /** The upper threshold: the 2304th largest sample, or 0 when there are fewer. */
  function Hi(s: seq<int>): int {
    if |s| < SIGMA then 0 else Sort(s)[|s| - SIGMA]
  }

  function Clamp(x: int, lo: int, hi: int): (r: int)
    requires lo <= hi
    ensures lo <= r <= hi
    ensures r < x ==> r == hi
    ensures r > x ==> r == lo
  {
    if x > hi then hi else if x < lo then lo else x
  }

  function Percent(x: int): (r: real)
    ensures 0.0 <= r <= 1.0
  {
    Clamp(x, 0, 100) as real / 100.0
  }

  /** The divisor of the gain. */
  function Divisor(lo: int, hi: int): int {
    hi - lo + 1
  }

  function Gain(lo: int, hi: int, brightness: int): real
    requires Divisor(lo, hi) != 0
  {
    256.0 / Divisor(lo, hi) as real * Percent(brightness)
  }

  function Offset(lo: int, hi: int, brightness: int, contrast: int): real
    requires Divisor(lo, hi) != 0
  {
    -Gain(lo, hi, brightness) * lo as real * Percent(contrast)
  }

  /** The cast to int: truncation toward zero. */
  function Trunc(x: real): int {
    if x >= 0.0 then x.Floor else -((-x).Floor)
  }

  /** The affine value as an output byte. */
  function ToByte(x: real): byte {
    Clamp(Trunc(x), 0, 255) as byte
  }

  function Affine(k: real, c: real, v: int): real {
    k * v as real + c
  }

  function ToneValue(v: int, lo: int, hi: int, brightness: int, contrast: int): real
    requires Divisor(lo, hi) != 0
  {
    Affine(Gain(lo, hi, brightness), Offset(lo, hi, brightness, contrast), v)
  }

  function Tone(v: int, lo: int, hi: int, brightness: int, contrast: int): byte
    requires Divisor(lo, hi) != 0
  {
    ToByte(ToneValue(v, lo, hi, brightness, contrast))
  }

  /** What the whole map computes. */
  function MapAll(s: seq<int>, brightness: int, contrast: int): (r: seq<byte>)
    requires Divisor(Lo(s), Hi(s)) != 0
    ensures |r| == |s|
  {
    seq(|s|, i requires 0 <= i < |s| => Tone(s[i], Lo(s), Hi(s), brightness, contrast))
  }

  // ----- the map in whole numbers -----

  /** The value before truncation as a quotient of integers. */
  lemma ToneExact(v: int, lo: int, hi: int, b: int, c: int)
    requires 0 <= b <= 100 && 0 <= c <= 100 && hi - lo + 1 != 0
    ensures ToneValue(v, lo, hi, b, c) * (10000 * (hi - lo + 1)) as real == (256 * b * (100 * v - c * lo)) as real
  {
    var d := (hi - lo + 1) as real;
    var q, p, r := 256.0 / d, b as real / 100.0, c as real / 100.0;
    assert Percent(b) == p && Percent(c) == r;
    assert q * d == 256.0;
    Scaled(q, d, b as real, c as real, p, r, v as real, lo as real);
    assert (10000 * (hi - lo + 1)) as real == 10000.0 * d;
    IntegerTerm(b, c, v, lo);
  }

  lemma Scaled(q: real, d: real, b: real, c: real, p: real, r: real, v: real, lo: real)
    requires q * d == 256.0 && b == 100.0 * p && c == 100.0 * r
    ensures (q * p * v + -(q * p) * lo * r) * (10000.0 * d) == 256.0 * b * (100.0 * v - c * lo)
  {
    calc {
      (q * p * v + -(q * p) * lo * r) * (10000.0 * d);
      (q * d) * (100.0 * p) * (100.0 * v - 100.0 * r * lo);
      256.0 * b * (100.0 * v - c * lo);
    }
  }

  lemma IntegerTerm(b: int, c: int, v: int, lo: int)
    ensures (256 * b * (100 * v - c * lo)) as real == 256.0 * b as real * (100.0 * v as real - c as real * lo as real)
  {
    assert (c * lo) as real == c as real * lo as real;
    var z := 100 * v - c * lo;
    assert z as real == 100.0 * v as real - c as real * lo as real;
    assert (b * z) as real == b as real * z as real;
  }

  /** A setting above 100 acts as 100, and one below 0 as 0. */
  lemma ToneSaturates(v: int, lo: int, hi: int, brightness: int, contrast: int, b: int, c: int)
    requires hi - lo + 1 != 0
    requires b == if brightness < 0 then 0 else if brightness > 100 then 100 else brightness
    requires c == if contrast < 0 then 0 else if contrast > 100 then 100 else contrast
    ensures ToneValue(v, lo, hi, brightness, contrast) == ToneValue(v, lo, hi, b, c)
  {
    assert Percent(brightness) == Percent(b) && Percent(contrast) == Percent(c);
    assert Gain(lo, hi, brightness) == Gain(lo, hi, b);
    assert Offset(lo, hi, brightness, contrast) == Offset(lo, hi, b, c);
  }

  /** x is the quotient of num and den > 0, cut to 0..255 and rounded down. */
  ghost predicate IsQuotient(x: byte, num: int, den: int) {
    && (x > 0 ==> x as int * den <= num)
    && (x < 255 ==> num < (x as int + 1) * den)
  }

  /** x is the byte for sample v between the thresholds lo and hi. */
  ghost predicate IsToneByte(x: byte, v: int, lo: int, hi: int, brightness: int, contrast: int) {
    var b := if brightness < 0 then 0 else if brightness > 100 then 100 else brightness;
    var c := if contrast < 0 then 0 else if contrast > 100 then 100 else contrast;
    var num, den := 256 * b * (100 * v - c * lo), 10000 * (hi - lo + 1);
    if den > 0 then IsQuotient(x, num, den) else IsQuotient(x, -num, -den)
  }

  /** Tone gives that byte, and no other value is one. */
  lemma ToneIsExactByte(x: byte, v: int, lo: int, hi: int, brightness: int, contrast: int)
    requires hi - lo + 1 != 0
    ensures IsToneByte(x, v, lo, hi, brightness, contrast) <==> x == Tone(v, lo, hi, brightness, contrast)
  {
    var b := if brightness < 0 then 0 else if brightness > 100 then 100 else brightness;
    var c := if contrast < 0 then 0 else if contrast > 100 then 100 else contrast;
    var num, den := 256 * b * (100 * v - c * lo), 10000 * (hi - lo + 1);
    ToneSaturates(v, lo, hi, brightness, contrast, b, c);
    ToneIsQuotient(x, v, lo, hi, b, c, num, den);
  }

  lemma ToneIsQuotient(x: byte, v: int, lo: int, hi: int, b: int, c: int, num: int, den: int)
    requires 0 <= b <= 100 && 0 <= c <= 100 && hi - lo + 1 != 0
    requires num == 256 * b * (100 * v - c * lo) && den == 10000 * (hi - lo + 1)
    ensures x == ToByte(ToneValue(v, lo, hi, b, c))
            <==> if den > 0 then IsQuotient(x, num, den) else IsQuotient(x, -num, -den)
  {
    ToneExact(v, lo, hi, b, c);
    QuotientByte(x, ToneValue(v, lo, hi, b, c), num, den);
  }

  lemma QuotientByte(x: byte, y: real, num: int, den: int)
    requires den != 0 && y * den as real == num as real
    ensures x == ToByte(y) <==> if den > 0 then IsQuotient(x, num, den) else IsQuotient(x, -num, -den)
  {
    if den > 0 {
      PositiveQuotientByte(x, y, num, den);
    } else {
      assert y * (-den) as real == (-num) as real;
      PositiveQuotientByte(x, y, -num, -den);
    }
  }

  lemma PositiveQuotientByte(x: byte, y: real, num: int, den: int)
    requires den > 0 && y * den as real == num as real
    ensures x == ToByte(y) <==> IsQuotient(x, num, den)
  {
    AtLeast(y, num, den, x as int);
    AtLeast(y, num, den, x as int + 1);
  }

  /** A quotient against a whole number. */
  lemma AtLeast(y: real, num: int, den: int, n: int)
    requires den > 0 && y * den as real == num as real
    ensures n * den <= num <==> n as real <= y
  {
    var r := den as real;
    assert (n * den) as real == n as real * r;
    if n as real <= y {
      ProductSign(y - n as real, r);
    } else {
      StrictProduct(n as real - y, r);
    }
  }

  lemma StrictProduct(x: real, y: real)
    requires x > 0.0 && y > 0.0
    ensures x * y > 0.0
  {
  }

  // ----- the methods -----

  method BuildHistogram(src: array<int>, len: nat, bias: int) returns (hist: array<int>)
    requires len <= src.Length && InRange(src[..len], bias)
    ensures fresh(hist) && hist.Length == LEVELS
    ensures forall b :: 0 <= b < LEVELS ==>
              hist[b] == CountBelow(src[..len], b - bias + 1) - CountBelow(src[..len], b - bias)
  {
    hist := new int[LEVELS](_ => 0);
    var i := 0;
    while i < len
      invariant 0 <= i <= len
      invariant forall b :: 0 <= b < LEVELS ==>
                  hist[b] == CountBelow(src[..i], b - bias + 1) - CountBelow(src[..i], b - bias)
    {
      assert src[..i + 1][..i] == src[..i];
      assert src[i] == src[..len][i];
      hist[src[i] + bias] := hist[src[i] + bias] + 1;
      i := i + 1;
    }
  }

  /** The lower threshold, scanning the histogram upwards. */
  method ScanUp(hist: array<int>, bias: int, ghost s: seq<int>) returns (nMin: int)
    requires InRange(s, bias) && hist.Length == LEVELS
    requires forall b :: 0 <= b < LEVELS ==> hist[b] == CountBelow(s, b - bias + 1) - CountBelow(s, b - bias)
    ensures nMin == Lo(s)
    ensures nMin == if |s| < 2304 then 0 else Sort(s)[2303]
  {
    nMin := 0;
    var nSum := 0;
    var i := 0;
    NoneBelow(s, -bias);
    while i < LEVELS
      invariant 0 <= i <= LEVELS
      invariant nSum == CountBelow(s, i - bias) < SIGMA
    {
      nSum := nSum + hist[i];
      if nSum >= SIGMA {
        nMin := i - bias;
        RankIsSorted(s, SIGMA, nMin);
        return;
      }
      i := i + 1;
    }
    AllBelow(s, LEVELS - bias);
  }

  /** The upper threshold, scanning the histogram downwards. */
  method ScanDown(hist: array<int>, bias: int, ghost s: seq<int>) returns (nMax: int)
    requires InRange(s, bias) && hist.Length == LEVELS
    requires forall b :: 0 <= b < LEVELS ==> hist[b] == CountBelow(s, b - bias + 1) - CountBelow(s, b - bias)
    ensures nMax == Hi(s)
    ensures nMax == if |s| < 2304 then 0 else Sort(s)[|s| - 2304]
  {
    nMax := 0;
    var nSum := 0;
    var i := LEVELS - 1;
    AllBelow(s, LEVELS - bias);
    while i >= 0
      invariant -1 <= i < LEVELS
      invariant nSum == |s| - CountBelow(s, i + 1 - bias) < SIGMA
    {
      nSum := nSum + hist[i];
      if nSum >= SIGMA {
        nMax := i - bias;
        RankIsSorted(s, |s| - SIGMA + 1, nMax);
        return;
      }
      i := i - 1;
    }
    NoneBelow(s, -bias);
  }

  /** The mapping loop. */
  method ApplyMap(src: array<int>, len: nat, dst: array<byte>, k: real, c: real)
    requires len <= src.Length && len <= dst.Length
    modifies dst
    ensures forall j :: 0 <= j < len ==> dst[j] == ToByte(Affine(k, c, src[j]))
    ensures dst[len..] == old(dst[len..])
  {
    var i := 0;
    while i < len
      invariant 0 <= i <= len
      invariant forall j :: 0 <= j < i ==> dst[j] == ToByte(Affine(k, c, src[j]))
      invariant forall j :: len <= j < dst.Length ==> dst[j] == old(dst[j])
    {
      var nValue := Trunc(Affine(k, c, src[i]));
      if nValue < 0 {
        dst[i] := 0;
      } else if nValue > 255 {
        dst[i] := 255;
      } else {
        dst[i] := nValue as byte;
      }
      i := i + 1;
    }
  }

  /** The body shared by the two variants, which differ only in the bias of their samples. */
  method MapWithBias(src: array?<int>, len: int, dst: array?<byte>, brightness: int, contrast: int, bias: int)
    requires src != null && dst != null && len > 0 ==>
               && len <= src.Length && len <= dst.Length
               && InRange(src[..len], bias) && Divisor(Lo(src[..len]), Hi(src[..len])) != 0
    modifies dst
    ensures dst != null && (src == null || len <= 0) ==> dst[..] == old(dst[..])
    ensures src != null && dst != null && len > 0 ==>
              && dst[..len] == MapAll(src[..len], brightness, contrast)
              && dst[len..] == old(dst[len..])
  {
    if src == null || dst == null || len <= 0 {
      return;
    }
    ghost var s := src[..len];
    var hist := BuildHistogram(src, len, bias);
    var nMin := ScanUp(hist, bias, s);
    var nMax := ScanDown(hist, bias, s);
    var k := Gain(nMin, nMax, brightness);
    var c := Offset(nMin, nMax, brightness, contrast);
    ApplyMap(src, len, dst, k, c);
    forall j | 0 <= j < len
      ensures dst[j] == MapAll(s, brightness, contrast)[j]
    {
      assert src[j] == s[j];
    }
  }

  lemma MapAllExact(s: seq<int>, brightness: int, contrast: int)
    requires Divisor(Lo(s), Hi(s)) != 0
    ensures forall j :: 0 <= j < |s| ==>
              IsToneByte(MapAll(s, brightness, contrast)[j], s[j], Lo(s), Hi(s), brightness, contrast)
  {
    forall j | 0 <= j < |s|
      ensures IsToneByte(MapAll(s, brightness, contrast)[j], s[j], Lo(s), Hi(s), brightness, contrast)
    {
      ToneIsExactByte(MapAll(s, brightness, contrast)[j], s[j], Lo(s), Hi(s), brightness, contrast);
    }
  }

  /** The same for the bytes in the output buffer. */
  lemma BytesOf(src: array<int>, len: nat, dst: array<byte>, brightness: int, contrast: int)
    requires len <= src.Length && len <= dst.Length && Divisor(Lo(src[..len]), Hi(src[..len])) != 0
    requires dst[..len] == MapAll(src[..len], brightness, contrast)
    ensures forall j :: 0 <= j < len ==>
              IsToneByte(dst[j], src[j], Lo(src[..len]), Hi(src[..len]), brightness, contrast)
  {
    MapAllExact(src[..len], brightness, contrast);
    forall j | 0 <= j < len
      ensures IsToneByte(dst[j], src[j], Lo(src[..len]), Hi(src[..len]), brightness, contrast)
    {
      assert dst[j] == dst[..len][j] && src[j] == src[..len][j];
    }
  }

  method Map16BitTo8BitUnsigned(src: array?<int>, len: int, dst: array?<byte>, brightness: int, contrast: int)
    requires src != null && dst != null && len > 0 ==>
               && len <= src.Length && len <= dst.Length
               && (forall j :: 0 <= j < len ==> 0 <= src[j] <= 65535)
               && Hi(src[..len]) - Lo(src[..len]) + 1 != 0
    modifies dst
    ensures dst != null && (src == null || len <= 0) ==> dst[..] == old(dst[..])
    ensures src != null && dst != null && len > 0 ==>
              && dst[..len] == MapAll(src[..len], brightness, contrast)
              && dst[len..] == old(dst[len..])
    ensures src != null && dst != null ==>
              forall j :: 0 <= j < len ==>
                IsToneByte(dst[j], src[j], Lo(src[..len]), Hi(src[..len]), brightness, contrast)
  {
    MapWithBias(src, len, dst, brightness, contrast, 0);
    if src != null && dst != null && len > 0 {
      BytesOf(src, len, dst, brightness, contrast);
    }
  }

  method Map16BitTo8Bit(src: array?<int>, len: int, dst: array?<byte>, brightness: int, contrast: int)
    requires src != null && dst != null && len > 0 ==>
               && len <= src.Length && len <= dst.Length
               && (forall j :: 0 <= j < len ==> -32768 <= src[j] <= 32767)
               && Hi(src[..len]) - Lo(src[..len]) + 1 != 0
    modifies dst
    ensures dst != null && (src == null || len <= 0) ==> dst[..] == old(dst[..])
    ensures src != null && dst != null && len > 0 ==>
              && dst[..len] == MapAll(src[..len], brightness, contrast)
              && dst[len..] == old(dst[len..])
    ensures src != null && dst != null ==>
              forall j :: 0 <= j < len ==>
                IsToneByte(dst[j], src[j], Lo(src[..len]), Hi(src[..len]), brightness, contrast)
  {
    MapWithBias(src, len, dst, brightness, contrast, SIGNED_BIAS);
    if src != null && dst != null && len > 0 {
      BytesOf(src, len, dst, brightness, contrast);
    }
  }

  // ----- when the divisor is positive -----

  /** The image sizes whose lower threshold never exceeds the upper. */
  predicate SafeSize(n: nat) {
    n < SIGMA || n >= 2 * SIGMA - 1
  }

  lemma ThresholdsOrdered(s: seq<int>)
    requires SafeSize(|s|)
    ensures Lo(s) <= Hi(s)
  {
    SortCorrect(s);
  }

  function Repeat(x: int, n: nat): (r: seq<int>)
    ensures |r| == n && forall i :: 0 <= i < n ==> r[i] == x
  {
    seq(n, _ => x)
  }

  /** SIGMA - 1 ones after the zeros that fill up n samples. */
  function ZerosThenOnes(n: nat): (r: seq<int>)
    requires SIGMA <= n
    ensures |r| == n
  {
    Repeat(0, n - SIGMA + 1) + Repeat(1, SIGMA - 1)
  }

  lemma {:induction false} CountConcat(s: seq<int>, t: seq<int>, v: int)
    ensures CountBelow(s + t, v) == CountBelow(s, v) + CountBelow(t, v)
  {
    if t == [] {
      assert s + t == s;
    } else {
      CountConcat(s, t[..|t| - 1], v);
      assert s + t == (s + t[..|t| - 1]) + [t[|t| - 1]];
      CountSnoc(s + t[..|t| - 1], t[|t| - 1], v);
    }
  }

  /** Between SIGMA and 2 * SIGMA - 2 samples the divisor can be zero. */
  lemma DivisorCanVanish(n: nat)
    requires !SafeSize(n)
    ensures Divisor(Lo(ZerosThenOnes(n)), Hi(ZerosThenOnes(n))) == 0
  {
    var s := ZerosThenOnes(n);
    var zeros, ones := Repeat(0, n - SIGMA + 1), Repeat(1, SIGMA - 1);
    CountConcat(zeros, ones, 0);
    CountConcat(zeros, ones, 1);
    CountConcat(zeros, ones, 2);
    NoneBelow(zeros, 0);
    NoneBelow(ones, 0);
    AllBelow(zeros, 1);
    NoneBelow(ones, 1);
    AllBelow(zeros, 2);
    AllBelow(ones, 2);
    RankIsSorted(s, SIGMA, 1);
    RankIsSorted(s, n - SIGMA + 1, 0);
  }

  ghost predicate AlwaysPositive(n: nat, bias: int) {
    forall s: seq<int> :: |s| == n && InRange(s, bias) ==> Divisor(Lo(s), Hi(s)) > 0
  }

  /** The divisor is positive for every image of n samples exactly when n < 2304 or n >= 4607. */
  lemma DivisorPositiveIff(n: nat, bias: int)
    requires bias == 0 || bias == SIGNED_BIAS
    ensures AlwaysPositive(n, bias) <==> n < 2304 || n >= 4607
  {
    if SafeSize(n) {
      forall s: seq<int> | |s| == n && InRange(s, bias)
        ensures Divisor(Lo(s), Hi(s)) > 0
      {
        ThresholdsOrdered(s);
      }
    } else {
      DivisorCanVanish(n);
      assert InRange(ZerosThenOnes(n), bias);
    }
  }

  // ----- the shape of the map -----

  lemma TruncMonotone(x: real, y: real)
    requires x <= y
    ensures Trunc(x) <= Trunc(y)
  {
  }

  lemma GainSign(lo: int, hi: int, brightness: int)
    requires lo <= hi
    ensures Gain(lo, hi, brightness) >= 0.0
  {
    var q := 256.0 / Divisor(lo, hi) as real;
    assert q >= 0.0;
    ProductSign(q, Percent(brightness));
  }

  lemma ProductSign(x: real, y: real)
    requires x >= 0.0 && y >= 0.0
    ensures x * y >= 0.0
  {
  }

  ghost predicate Within(x: real, bound: real) {
    -bound <= x <= bound
  }

  lemma ProductWithin(x: real, y: real, m: real, n: real)
    requires Within(x, m) && Within(y, n)
    ensures Within(x * y, m * n)
  {
    ProductSign(m - x, n + y);
    ProductSign(m + x, n - y);
    ProductSign(m - x, n - y);
    ProductSign(m + x, n + y);
    assert (m - x) * (n + y) == m * n + m * y - x * n - x * y;
    assert (m + x) * (n - y) == m * n - m * y + x * n - x * y;
    assert (m - x) * (n - y) == m * n - m * y - x * n + x * y;
    assert (m + x) * (n + y) == m * n + m * y + x * n + x * y;
  }

  lemma GainWithin(lo: int, hi: int, brightness: int)
    requires Divisor(lo, hi) != 0
    ensures Within(Gain(lo, hi, brightness), 256.0)
  {
    var d := Divisor(lo, hi);
    var q := 256.0 / d as real;
    QuotientWithin(q, d as real);
    ProductWithin(q, Percent(brightness), 256.0, 1.0);
  }

  lemma QuotientWithin(q: real, r: real)
    requires (r >= 1.0 || r <= -1.0) && q == 256.0 / r
    ensures Within(q, 256.0)
  {
    if r >= 1.0 {
      Quotient(q, r);
    } else {
      assert q * r == 256.0 && -q == 256.0 / -r;
      Quotient(-q, -r);
    }
  }

  lemma OffsetWithin(lo: int, hi: int, brightness: int, contrast: int)
    requires -LEVELS <= lo <= LEVELS && Divisor(lo, hi) != 0
    ensures Within(Offset(lo, hi, brightness, contrast), 16777216.0)
  {
    var k := -Gain(lo, hi, brightness);
    var x := k * lo as real;
    GainWithin(lo, hi, brightness);
    assert Within(lo as real, 65536.0);
    ProductWithin(k, lo as real, 256.0, 65536.0);
    ProductWithin(x, Percent(contrast), 16777216.0, 1.0);
    assert Offset(lo, hi, brightness, contrast) == x * Percent(contrast);
  }

  lemma AffineWithin(k: real, c: real, v: int)
    requires Within(k, 256.0) && Within(c, 16777216.0) && -LEVELS <= v <= LEVELS
    ensures Within(Affine(k, c, v), 33554432.0)
  {
    assert Within(v as real, 65536.0);
    ProductWithin(k, v as real, 256.0, 65536.0);
  }

  /** For 16-bit samples of either kind the value that is cast to int is at most 2^25 in size. */
  lemma CastFits(v: int, lo: int, hi: int, brightness: int, contrast: int)
    requires -LEVELS <= v <= LEVELS && -LEVELS <= lo <= LEVELS && Divisor(lo, hi) != 0
    ensures Within(ToneValue(v, lo, hi, brightness, contrast), 33554432.0)
  {
    GainWithin(lo, hi, brightness);
    OffsetWithin(lo, hi, brightness, contrast);
    AffineWithin(Gain(lo, hi, brightness), Offset(lo, hi, brightness, contrast), v);
  }

  /** Brighter samples never give darker bytes. */
  lemma ToneMonotone(v: int, w: int, lo: int, hi: int, brightness: int, contrast: int)
    requires v <= w && lo <= hi
    ensures Tone(v, lo, hi, brightness, contrast) <= Tone(w, lo, hi, brightness, contrast)
  {
    var k, c := Gain(lo, hi, brightness), Offset(lo, hi, brightness, contrast);
    GainSign(lo, hi, brightness);
    AffineMonotone(k, c, v, w);
    TruncMonotone(Affine(k, c, v), Affine(k, c, w));
  }

  lemma AffineMonotone(k: real, c: real, v: int, w: int)
    requires k >= 0.0 && v <= w
    ensures Affine(k, c, v) <= Affine(k, c, w)
  {
    ProductSign(k, (w - v) as real);
    assert k * w as real - k * v as real == k * (w - v) as real;
  }

  /** Over a whole image of a safe size: a brighter sample never gives a darker byte. */
  lemma MapAllMonotone(s: seq<int>, brightness: int, contrast: int, i: nat, j: nat)
    requires SafeSize(|s|) && i < |s| && j < |s| && s[i] <= s[j]
    ensures Divisor(Lo(s), Hi(s)) != 0
    ensures MapAll(s, brightness, contrast)[i] <= MapAll(s, brightness, contrast)[j]
  {
    ThresholdsOrdered(s);
    ToneMonotone(s[i], s[j], Lo(s), Hi(s), brightness, contrast);
  }

  /** At full contrast the value is the distance from lo, scaled. */
  lemma FullScale(v: int, lo: int, hi: int, brightness: int, contrast: int)
    requires Divisor(lo, hi) != 0 && contrast >= 100
    ensures ToneValue(v, lo, hi, brightness, contrast) == Gain(lo, hi, brightness) * (v - lo) as real
  {
    var k := Gain(lo, hi, brightness);
    assert Percent(contrast) == 1.0;
    assert Offset(lo, hi, brightness, contrast) == -k * lo as real;
    Spread(k, v, lo);
  }

  lemma Spread(k: real, v: int, lo: int)
    ensures k * v as real + -k * lo as real == k * (v - lo) as real
  {
  }

  /** At full contrast samples up to the lower threshold come out black. */
  lemma BlackBelowLo(v: int, lo: int, hi: int, brightness: int, contrast: int)
    requires lo <= hi && contrast >= 100 && v <= lo
    ensures Tone(v, lo, hi, brightness, contrast) == 0
  {
    FullScale(lo, lo, hi, brightness, contrast);
    assert Tone(lo, lo, hi, brightness, contrast) == 0;
    ToneMonotone(v, lo, lo, hi, brightness, contrast);
  }

  /** Samples from the upper threshold on come out white exactly when the thresholds are at least
      255 apart. */
  lemma WhiteAboveHiIff(lo: int, hi: int, brightness: int, contrast: int)
    requires lo <= hi && brightness >= 100 && contrast >= 100
    ensures (forall v :: v >= hi ==> Tone(v, lo, hi, brightness, contrast) == 255) <==> hi - lo >= 255
  {
    var d := Divisor(lo, hi);
    var q := 256.0 / d as real;
    assert Percent(brightness) == 1.0;
    assert Gain(lo, hi, brightness) == q;
    FullScale(hi, lo, hi, brightness, contrast);
    TopEquals(q, d);
    TopValue(d, q, 256.0 - q);
    assert Tone(hi, lo, hi, brightness, contrast) == 255 <==> hi - lo >= 255;
    if hi - lo >= 255 {
      forall v | v >= hi
        ensures Tone(v, lo, hi, brightness, contrast) == 255
      {
        ToneMonotone(hi, v, lo, hi, brightness, contrast);
      }
    }
  }

  lemma TopValue(d: int, q: real, x: real)
    requires d >= 1 && q == 256.0 / d as real && x == 256.0 - q
    ensures 0.0 <= x < 256.0 && (x >= 255.0 <==> d >= 256)
  {
    Quotient(q, d as real);
  }

  lemma TopEquals(q: real, d: int)
    requires d >= 1 && q == 256.0 / d as real
    ensures q * (d - 1) as real == 256.0 - q
  {
    assert (d - 1) as real == d as real - 1.0;
    Expand(q, d as real);
  }

  lemma Expand(q: real, r: real)
    requires r != 0.0 && q == 256.0 / r
    ensures q * (r - 1.0) == 256.0 - q
  {
    assert q * r == 256.0;
  }

  lemma Quotient(q: real, r: real)
    requires r >= 1.0 && q == 256.0 / r
    ensures 0.0 < q <= 256.0
    ensures r >= 256.0 <==> q <= 1.0
  {
    assert q * r == 256.0;
    if r >= 256.0 {
      ProductSign(q, r - 256.0);
    } else if q <= 1.0 {
      ProductSign(1.0 - q, r);
    }
    ProductSign(q, r - 1.0);
  }

  // ----- signed against unsigned -----

  function Shift(s: seq<int>, z: int): (r: seq<int>)
    ensures |r| == |s| && forall i :: 0 <= i < |s| ==> r[i] == s[i] + z
  {
    seq(|s|, i requires 0 <= i < |s| => s[i] + z)
  }

  lemma ShiftSnoc(s: seq<int>, x: int, z: int)
    ensures Shift(s + [x], z) == Shift(s, z) + [x + z]
  {
  }

  lemma ShiftFront(s: seq<int>, z: int)
    requires s != []
    ensures Shift(s, z)[..|s| - 1] == Shift(s[..|s| - 1], z)
  {
  }

  lemma {:induction false} InsertShift(s: seq<int>, x: int, z: int)
    ensures Insert(Shift(s, z), x + z) == Shift(Insert(s, x), z)
  {
    if s == [] || s[|s| - 1] <= x {
      ShiftSnoc(s, x, z);
    } else {
      var front, last := s[..|s| - 1], s[|s| - 1];
      InsertShift(front, x, z);
      ShiftFront(s, z);
      ShiftSnoc(Insert(front, x), last, z);
    }
  }

  lemma {:induction false} SortShift(s: seq<int>, z: int)
    ensures Sort(Shift(s, z)) == Shift(Sort(s), z)
  {
    if s != [] {
      var front, last := s[..|s| - 1], s[|s| - 1];
      var u := Shift(s, z);
      ShiftFront(s, z);
      assert u[..|u| - 1] == Shift(front, z) && u[|u| - 1] == last + z;
      SortShift(front, z);
      calc {
        Sort(u);
        Insert(Shift(Sort(front), z), last + z);
        { InsertShift(Sort(front), last, z); }
        Shift(Insert(Sort(front), last), z);
        Shift(Sort(s), z);
      }
    }
  }

  /** With full contrast the tone depends only on distances. */
  lemma ToneShift(v: int, lo: int, hi: int, brightness: int, contrast: int, z: int)
    requires Divisor(lo, hi) != 0 && contrast >= 100
    ensures Tone(v + z, lo + z, hi + z, brightness, contrast) == Tone(v, lo, hi, brightness, contrast)
  {
    GainShift(lo, hi, brightness, z);
    var k, k' := Gain(lo, hi, brightness), Gain(lo + z, hi + z, brightness);
    FullScale(v, lo, hi, brightness, contrast);
    FullScale(v + z, lo + z, hi + z, brightness, contrast);
    assert v + z - (lo + z) == v - lo;
    assert k' * (v + z - (lo + z)) as real == k * (v - lo) as real;
  }

  lemma GainShift(lo: int, hi: int, brightness: int, z: int)
    requires Divisor(lo, hi) != 0
    ensures Divisor(lo + z, hi + z) == Divisor(lo, hi)
    ensures Gain(lo + z, hi + z, brightness) == Gain(lo, hi, brightness)
  {
  }

  lemma DarkIsBlack(v: int, lo: int, hi: int, brightness: int, contrast: int)
    requires Divisor(lo, hi) != 0 && brightness <= 0
    ensures Tone(v, lo, hi, brightness, contrast) == 0
  {
    assert Gain(lo, hi, brightness) == 0.0;
  }

  /** The signed map of s and the unsigned map of the same image moved to 0..65535 agree. */
  ghost predicate Agree(s: seq<int>, brightness: int, contrast: int) {
    var u := Shift(s, SIGNED_BIAS);
    && Divisor(Lo(s), Hi(s)) != 0
    && Divisor(Lo(u), Hi(u)) != 0
    && MapAll(s, brightness, contrast) == MapAll(u, brightness, contrast)
  }

  lemma AgreeAtFullContrast(s: seq<int>, brightness: int, contrast: int)
    requires |s| >= 2 * SIGMA - 1 && contrast >= 100
    ensures Agree(s, brightness, contrast)
  {
    var u := Shift(s, SIGNED_BIAS);
    ThresholdsOrdered(s);
    SortShift(s, SIGNED_BIAS);
    forall i | 0 <= i < |s|
      ensures MapAll(s, brightness, contrast)[i] == MapAll(u, brightness, contrast)[i]
    {
      ToneShift(s[i], Lo(s), Hi(s), brightness, contrast, SIGNED_BIAS);
    }
  }

  lemma AgreeInTheDark(s: seq<int>, brightness: int, contrast: int)
    requires SafeSize(|s|)
    requires brightness <= 0
    ensures Agree(s, brightness, contrast)
  {
    var u := Shift(s, SIGNED_BIAS);
    ThresholdsOrdered(s);
    ThresholdsOrdered(u);
    forall i | 0 <= i < |s|
      ensures MapAll(s, brightness, contrast)[i] == MapAll(u, brightness, contrast)[i]
    {
      DarkIsBlack(s[i], Lo(s), Hi(s), brightness, contrast);
      DarkIsBlack(u[i], Lo(u), Hi(u), brightness, contrast);
    }
  }

  lemma SortConstant(x: int, n: nat, k: nat)
    requires 1 <= k <= n
    ensures Sort(Repeat(x, n))[k - 1] == x
  {
    NoneBelow(Repeat(x, n), x);
    AllBelow(Repeat(x, n), x + 1);
    RankIsSorted(Repeat(x, n), k, x);
  }

  lemma ConstantThresholds(x: int, n: nat)
    requires n >= 1
    ensures var t := if n < SIGMA then 0 else x; Lo(Repeat(x, n)) == Hi(Repeat(x, n)) == t
  {
    if n >= SIGMA {
      SortConstant(x, n, SIGMA);
      SortConstant(x, n, n - SIGMA + 1);
    }
  }

  /** The all-zero signed image is black; moved to 32768 it is white. */
  lemma ZeroImageDisagrees(n: nat, brightness: int, contrast: int)
    requires 1 <= n && brightness > 0 && (n < SIGMA || contrast < 100)
    ensures !Agree(Repeat(0, n), brightness, contrast)
  {
    var s, u := Repeat(0, n), Repeat(SIGNED_BIAS, n);
    assert Shift(s, SIGNED_BIAS) == u;
    ConstantThresholds(0, n);
    ConstantThresholds(SIGNED_BIAS, n);
    WhiteAtBias(Lo(u), brightness, contrast);
    assert Tone(0, 0, 0, brightness, contrast) == 0;
    assert MapAll(s, brightness, contrast)[0] == 0;
    assert MapAll(u, brightness, contrast)[0] == 255;
  }

  lemma WhiteAtBias(lo: int, brightness: int, contrast: int)
    requires brightness > 0 && (lo == 0 || (lo == SIGNED_BIAS && contrast < 100))
    ensures Tone(SIGNED_BIAS, lo, lo, brightness, contrast) == 255
  {
    var p, q := Percent(brightness), if lo == 0 then 0.0 else Percent(contrast);
    assert p >= 0.01 && q <= 0.99;
    var k := 256.0 * p;
    assert Gain(lo, lo, brightness) == k;
    var span := SIGNED_BIAS as real * (1.0 - q);
    assert span >= 327.0;
    assert ToneValue(SIGNED_BIAS, lo, lo, brightness, contrast) == k * span;
    ProductSign(k - 2.56, span);
    assert k * span >= 2.56 * span;
  }

  ghost predicate AlwaysAgree(n: nat, brightness: int, contrast: int) {
    forall s: seq<int> :: |s| == n && InRange(s, SIGNED_BIAS) ==> Agree(s, brightness, contrast)
  }

  /** Exactly when both variants are defined and agree on every image of n samples. */
  lemma SignedAgreesIff(n: nat, brightness: int, contrast: int)
    ensures AlwaysAgree(n, brightness, contrast)
            <==> n == 0 || ((n < 2304 || n >= 4607) && (brightness <= 0 || (n >= 2304 && contrast >= 100)))
  {
    if n == 0 {
    } else if !SafeSize(n) {
      DivisorCanVanish(n);
      assert InRange(ZerosThenOnes(n), SIGNED_BIAS) && !Agree(ZerosThenOnes(n), brightness, contrast);
    } else if brightness <= 0 || (n >= SIGMA && contrast >= 100) {
      forall s: seq<int> | |s| == n && InRange(s, SIGNED_BIAS)
        ensures Agree(s, brightness, contrast)
      {
        if brightness <= 0 {
          AgreeInTheDark(s, brightness, contrast);
        } else {
          AgreeAtFullContrast(s, brightness, contrast);
        }
      }
    } else {
      ZeroImageDisagrees(n, brightness, contrast);
      assert InRange(Repeat(0, n), SIGNED_BIAS);
    }
  }
}
