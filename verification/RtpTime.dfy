// RTPTime and RTPNTPTime: seconds and microseconds, their NTP form (section 4 of RFC 3550), and the
// clock that is emulated on top of a performance counter.

module RtpTime {
  import opened Bytes

  const TWO32: int := 0x1_0000_0000
  const TWO64: int := 0x1_0000_0000_0000_0000
  const MILLION: int := 1000000
  const NTP_OFFSET: int := 2208988800

  datatype NtpTime = NtpTime(msw: uint32, lsw: uint32) {
    /** The whole time in fractions of 2^-32 second. */
    function Total(): int {
      msw * TWO32 + lsw
    }
  }

  datatype TimeValue = TimeValue(sec: uint32, usec: uint32) {
    predicate Normal() {
      usec < MILLION
    }

    /** The whole time in microseconds. */
    function Total(): int {
      sec * MILLION + usec
    }
  }

  function Wrap32(x: int): uint32 {
    x % TWO32
  }

  function Wrap64(x: int): uint64 {
    x % TWO64
  }

  /** A sum or difference wraps around at most once. */
  lemma WrapOnce(x: int)
    requires -TWO32 <= x < 2 * TWO32
    ensures Wrap32(x) == if x < 0 then x + TWO32 else if x < TWO32 then x else x - TWO32
  {
  }

  // ----- the calendar -----

  predicate IsLeap(year: nat) {
    year % 4 == 0 && (year % 100 != 0 || year % 400 == 0)
  }

  /** The days from the first of January of one year to that of another. */
  ghost function DaysBetween(year: nat, later: nat): nat
    requires year <= later
    decreases later - year
  {
    if year == later then 0
    else (if IsLeap(year) then 366 else 365) + DaysBetween(year + 1, later)
  }

  /** The days before a year, counting from year 1. */
  ghost function DaysBefore(year: int): int
    requires year >= 1
  {
    365 * (year - 1) + (year - 1) / 4 - (year - 1) / 100 + (year - 1) / 400
  }

  lemma YearLength(year: nat)
    requires year >= 1
    ensures DaysBefore(year + 1) == DaysBefore(year) + if IsLeap(year) then 366 else 365
  {
    LeapNesting(year);
    QuotientStep(year, 4);
    QuotientStep(year, 100);
    QuotientStep(year, 400);
  }

  /** A multiple of 400 is one of 100, and a multiple of 100 is one of 4. */
  lemma LeapNesting(year: nat)
    ensures year % 400 == 0 ==> year % 100 == 0
    ensures year % 100 == 0 ==> year % 4 == 0
  {
    if year % 400 == 0 {
      DivModUnique(year, 100, 4 * (year / 400), 0);
    }
    if year % 100 == 0 {
      DivModUnique(year, 4, 25 * (year / 100), 0);
    }
  }

  lemma QuotientStep(x: nat, m: nat)
    requires x >= 1 && m >= 2
    ensures x / m == (x - 1) / m + if x % m == 0 then 1 else 0
  {
    var q, r := (x - 1) / m, (x - 1) % m;
    assert x - 1 == q * m + r;
    if r == m - 1 {
      assert x == (q + 1) * m;
      DivModUnique(x, m, q + 1, 0);
    } else {
      DivModUnique(x, m, q, r + 1);
    }
  }

  lemma DivModUnique(x: int, m: nat, q: int, r: int)
    requires m > 0 && x == q * m + r && 0 <= r < m
    ensures x / m == q && x % m == r
  {
    DivUnique(x, m, q);
  }

  lemma {:induction false} DaysBetweenIs(year: nat, later: nat)
    requires 1 <= year <= later
    ensures DaysBetween(year, later) == DaysBefore(later) - DaysBefore(year)
    decreases later - year
  {
    if year < later {
      YearLength(year);
      DaysBetweenIs(year + 1, later);
    }
  }

  /** The NTP era starts in 1900, file times in 1601, and the seconds of a time value in 1970. */
  lemma EpochOffsets(ntp: nat, file: nat, unix: nat)
    requires ntp == 1900 && file == 1601 && unix == 1970
    ensures NTP_OFFSET == DaysBetween(ntp, unix) * 86400
    ensures EPOCH_MICROS == DaysBetween(file, unix) * 86400 * 1000000
  {
    DaysBetweenIs(ntp, unix);
    DaysBetweenIs(file, unix);
    DaysBeforeYears(ntp, file, unix);
  }

  lemma DaysBeforeYears(ntp: nat, file: nat, unix: nat)
    requires ntp == 1900 && file == 1601 && unix == 1970
    ensures DaysBefore(ntp) == 693595 && DaysBefore(file) == 584388 && DaysBefore(unix) == 719162
  {
  }

  // ----- NTP -----

  function FractionOf(usec: uint32): (lsw: uint32)
    requires usec < MILLION
    ensures lsw == usec * TWO32 / MILLION
  {
    var x := usec as real / 1000000.0;
    var y := x * (65536.0 * 65536.0);
    FloorIs(y, usec * TWO32 / MILLION);
    y.Floor
  }

  function MicrosOf(lsw: uint32): (usec: uint32)
    ensures usec == lsw * MILLION / TWO32
    ensures usec < MILLION
  {
    var x := lsw as real;
    var y := x / (65536.0 * 65536.0);
    var z := y * 1000000.0;
    FloorIs(z, lsw * MILLION / TWO32);
    z.Floor
  }

  lemma FloorIs(x: real, n: int)
    requires n as real <= x < (n + 1) as real
    ensures x.Floor == n
  {
  }

  function ToNtp(t: TimeValue): NtpTime
    requires t.Normal()
  {
    NtpTime(Wrap32(t.sec + NTP_OFFSET), FractionOf(t.usec))
  }

  /** What the two conversions do with the seconds: they count the 70 years from 1900 to 1970, 17 of
      them leap years. */
  lemma NtpSeconds(t: TimeValue, n: NtpTime)
    requires t.Normal()
    ensures ToNtp(t).msw == (t.sec + (70 * 365 + 17) * 86400) % 0x1_0000_0000
    ensures n.msw >= (70 * 365 + 17) * 86400 ==> FromNtp(n).sec == n.msw - (70 * 365 + 17) * 86400
    ensures n.msw < (70 * 365 + 17) * 86400 ==> FromNtp(n) == TimeValue(0, 0)
  {
  }

  function FromNtp(n: NtpTime): TimeValue {
    if n.msw < NTP_OFFSET then TimeValue(0, 0)
    else TimeValue(n.msw - NTP_OFFSET, MicrosOf(n.lsw))
  }

  /** Microseconds lose at most one tick on the way through NTP, and none on the 64 values that are
      multiples of 1/64 second. */
  lemma MicrosThroughNtp(m: uint32)
    requires m < MILLION
    ensures MicrosOf(FractionOf(m)) == if m % 15625 == 0 then m else m - 1
  {
    var l := FractionOf(m);
    var r := m * TWO32 - l * MILLION;
    assert 0 <= r < MILLION;
    WholeFraction(m, l);
    if r == 0 {
      assert l * MILLION == m * TWO32;
    } else {
      assert (m - 1) * TWO32 <= l * MILLION < m * TWO32;
    }
  }

  /** m microseconds are a whole number of fractions exactly when 15625 divides m: 2^32 / 10^6 is
      2^26 / 15625, and 2^26 * 12659 - 15625 * 54369991 == 1. */
  lemma WholeFraction(m: int, l: int)
    requires l == m * TWO32 / MILLION
    ensures m * TWO32 == l * MILLION <==> m % 15625 == 0
  {
    if m * TWO32 == l * MILLION {
      OnlyMultiples(m, l, l * 12659 - m * 54369991);
    }
    if m % 15625 == 0 {
      AllMultiples(m, m / 15625);
    }
  }

  lemma OnlyMultiples(m: int, l: int, q: int)
    requires m * TWO32 == l * MILLION && q == l * 12659 - m * 54369991
    ensures m % 15625 == 0
  {
    assert m == 15625 * q;
  }

  lemma AllMultiples(m: int, k: int)
    requires m == 15625 * k
    ensures m * TWO32 == m * TWO32 / MILLION * MILLION
  {
    assert m * TWO32 == (k * 67108864) * MILLION;
  }

  /** A time comes back from NTP unchanged exactly when its era fits and its microseconds are a
      multiple of 15625; in the fitting era the seconds always come back. The era ends 2^32 seconds
      after 1900, which is 2085978496 seconds after 1970. */
  lemma NtpRoundTrip(t: TimeValue)
    requires t.Normal()
    ensures t.sec < 2085978496 ==>
              FromNtp(ToNtp(t)) == TimeValue(t.sec, if t.usec % 15625 == 0 then t.usec else t.usec - 1)
    ensures t.sec >= 2085978496 ==> FromNtp(ToNtp(t)) == TimeValue(0, 0)
    ensures FromNtp(ToNtp(t)) == t <==> t.sec < 2085978496 && t.usec % 15625 == 0
  {
    MicrosThroughNtp(t.usec);
  }

  /** The other way round at most 4295 of the 2^32 fractions of a second are lost, never gained. */
  lemma FractionThroughMicros(l: uint32)
    ensures l - 4295 <= FractionOf(MicrosOf(l)) <= l
  {
  }

  /** Going to NTP keeps the order of two times exactly when they are in the same NTP era. */
  lemma ToNtpMonotoneIff(s: TimeValue, t: TimeValue)
    requires s.Normal() && t.Normal() && s.Total() <= t.Total()
    ensures ToNtp(s).Total() <= ToNtp(t).Total()
            <==> (s.sec < 2085978496 <==> t.sec < 2085978496)
  {
    WrapOnce(s.sec + NTP_OFFSET);
    WrapOnce(t.sec + NTP_OFFSET);
  }

  /** Coming from NTP keeps the order of any two times, those before the offset included. */
  lemma FromNtpMonotone(a: NtpTime, b: NtpTime)
    requires a.Total() <= b.Total()
    ensures FromNtp(a).Total() <= FromNtp(b).Total()
  {
  }

  // ----- arithmetic and comparison -----

  function Minus(a: TimeValue, b: TimeValue): TimeValue {
    var sec := Wrap32(a.sec - b.sec);
    if b.usec > a.usec then TimeValue(Wrap32(sec - 1), Wrap32(Wrap32(a.usec + MILLION) - b.usec))
    else TimeValue(sec, a.usec - b.usec)
  }

  function Plus(a: TimeValue, b: TimeValue): TimeValue {
    var sec, usec := Wrap32(a.sec + b.sec), Wrap32(a.usec + b.usec);
    if usec >= MILLION then TimeValue(Wrap32(sec + 1), usec - MILLION) else TimeValue(sec, usec)
  }

  class RTPTime {
    var sec: uint32
    var microsec: uint32

    constructor (s: uint32, m: uint32)
      ensures Value() == TimeValue(s, m)
    {
      sec := s;
      microsec := m;
    }

    function Value(): TimeValue
      reads this
    {
      TimeValue(sec, microsec)
    }

    /** operator-=; t may be this very object. */
    method SubtractAssign(t: RTPTime)
      modifies this
      ensures Value() == Minus(old(Value()), old(t.Value()))
    {
      sec := Wrap32(sec - t.sec);
      if t.microsec > microsec {
        sec := Wrap32(sec - 1);
        microsec := Wrap32(microsec + MILLION);
      }
      WrapOnce(microsec - t.microsec);
      microsec := Wrap32(microsec - t.microsec);
    }

    /** operator+=; t may be this very object. */
    method AddAssign(t: RTPTime)
      modifies this
      ensures Value() == Plus(old(Value()), old(t.Value()))
    {
      sec := Wrap32(sec + t.sec);
      microsec := Wrap32(microsec + t.microsec);
      if microsec >= MILLION {
        sec := Wrap32(sec + 1);
        microsec := microsec - MILLION;
      }
    }
  }

  /** One wrap-around is one modulus added or taken off. */
  lemma ModCases(x: int, m: int)
    requires m > 0 && -m <= x < 2 * m
    ensures x % m == if x < 0 then x + m else if x < m then x else x - m
  {
    if x < 0 {
      assert x == -1 * m + (x + m);
    } else if x >= m {
      assert x == 1 * m + (x - m);
    }
  }

  /** += on normalised times is addition of microseconds modulo 2^32 seconds. */
  lemma PlusMeaning(a: TimeValue, b: TimeValue)
    requires a.Normal() && b.Normal()
    ensures Plus(a, b).Normal()
    ensures Plus(a, b).Total() == (a.Total() + b.Total()) % (TWO32 * MILLION)
  {
    WrapOnce(a.sec + b.sec);
    WrapOnce(a.usec + b.usec);
    WrapOnce(Wrap32(a.sec + b.sec) + 1);
    ModCases(a.Total() + b.Total(), TWO32 * MILLION);
  }

  /** -= on normalised times is subtraction of microseconds modulo 2^32 seconds. */
  lemma MinusMeaning(a: TimeValue, b: TimeValue)
    requires a.Normal() && b.Normal()
    ensures Minus(a, b).Normal()
    ensures Minus(a, b).Total() == (a.Total() - b.Total()) % (TWO32 * MILLION)
  {
    WrapOnce(a.sec - b.sec);
    WrapOnce(Wrap32(a.sec - b.sec) - 1);
    WrapOnce(a.usec + MILLION);
    WrapOnce(a.usec + MILLION - b.usec);
    ModCases(a.Total() - b.Total(), TWO32 * MILLION);
  }

  /** What the operators do with any two times, normalised or not: one microsecond field modulo
      2^32, and at most one carry. */
  lemma PlusFields(a: TimeValue, b: TimeValue)
    ensures var u := (a.usec + b.usec) % 0x1_0000_0000;
            var carry := if u >= 1000000 then 1 else 0;
            Plus(a, b) == TimeValue((a.sec + b.sec + carry) % 0x1_0000_0000, u - carry * 1000000)
  {
    WrapOnce(a.sec + b.sec);
    WrapOnce(Wrap32(a.sec + b.sec) + 1);
    CarryWraps(a.sec + b.sec);
  }

  lemma CarryWraps(x: int)
    requires 0 <= x < 2 * TWO32 - 1
    ensures Wrap32(x + 1) == Wrap32(Wrap32(x) + 1)
  {
  }

  lemma MinusFields(a: TimeValue, b: TimeValue)
    ensures var borrow := if b.usec > a.usec then 1 else 0;
            Minus(a, b) == TimeValue((a.sec - b.sec - borrow) % 0x1_0000_0000,
                                     (a.usec - b.usec + borrow * 1000000) % 0x1_0000_0000)
  {
    BorrowWraps(a.sec - b.sec, -1);
    var usec: int := b.usec;
    BorrowWraps(a.usec + MILLION, -usec);
  }

  lemma BorrowWraps(x: int, y: int)
    requires -TWO32 < x < 2 * TWO32 && -TWO32 < y <= 0
    ensures Wrap32(Wrap32(x) + y) == Wrap32(x + y)
  {
    var k := x / TWO32;
    assert x == k * TWO32 + Wrap32(x);
  }

  lemma TotalIsInjective(a: TimeValue, b: TimeValue)
    requires a.Normal() && b.Normal() && a.Total() == b.Total()
    ensures a == b
  {
  }

  lemma PlusThenMinus(a: TimeValue, b: TimeValue)
    requires a.Normal() && b.Normal()
    ensures Minus(Plus(a, b), b) == a
  {
    var p := Plus(a, b);
    PlusMeaning(a, b);
    MinusMeaning(p, b);
    ModCases(a.Total() + b.Total(), TWO32 * MILLION);
    ModCases(p.Total() - b.Total(), TWO32 * MILLION);
    TotalIsInjective(Minus(p, b), a);
  }

  lemma MinusThenPlus(a: TimeValue, b: TimeValue)
    requires a.Normal() && b.Normal()
    ensures Plus(Minus(a, b), b) == a
  {
    var q := Minus(a, b);
    MinusMeaning(a, b);
    PlusMeaning(q, b);
    ModCases(a.Total() - b.Total(), TWO32 * MILLION);
    ModCases(q.Total() + b.Total(), TWO32 * MILLION);
    TotalIsInjective(Plus(q, b), a);
  }

  /** += and -= undo each other. */
  lemma PlusMinusInverse(a: TimeValue, b: TimeValue)
    requires a.Normal() && b.Normal()
    ensures Minus(Plus(a, b), b) == a
    ensures Plus(Minus(a, b), b) == a
  {
    PlusThenMinus(a, b);
    MinusThenPlus(a, b);
  }

  predicate Less(a: TimeValue, b: TimeValue) {
    if a.sec < b.sec then true
    else if a.sec > b.sec then false
    else a.usec < b.usec
  }

  predicate AtMost(a: TimeValue, b: TimeValue) {
    if a.sec < b.sec then true
    else if a.sec > b.sec then false
    else a.usec <= b.usec
  }

  /** On normalised times the comparisons compare microseconds. */
  lemma ComparisonMeaning(a: TimeValue, b: TimeValue)
    requires a.Normal() && b.Normal()
    ensures Less(a, b) <==> a.Total() < b.Total()
    ensures AtMost(a, b) <==> a.Total() <= b.Total()
  {
  }

  // ----- the emulated clock -----

  /** Whole microseconds of a performance count, split to keep the product small; all operations
      are 64-bit. */
  function CalculateMicroseconds(a: uint64, f: uint64): uint64
    requires f > 0
  {
    var b, c := a / f, a % f;
    Wrap64(Wrap64(b * MILLION) + Wrap64(c * MILLION) / f)
  }

  /** The microseconds of a count, without overflow. */
  ghost function Micros(a: int, f: int): int
    requires a >= 0 && f > 0
  {
    a * MILLION / f
  }

  lemma ProductSign(a: int, b: int)
    requires a >= 0 && b >= 0
    ensures a * b >= 0
  {
  }

  lemma ProductOrder(q: int, r: int, f: int)
    requires f > 0 && q * f < r * f + f
    ensures q <= r
  {
    assert (q - r - 1) * f == q * f - r * f - f;
    if q - r - 1 >= 0 {
      ProductSign(q - r - 1, f);
    }
  }

  lemma DivBounds(x: int, f: int)
    requires f > 0
    ensures x / f * f <= x < x / f * f + f
  {
  }

  lemma DivUnique(x: int, f: int, q: int)
    requires f > 0 && q * f <= x < q * f + f
    ensures x / f == q
  {
    DivBounds(x, f);
    ProductOrder(x / f, q, f);
    ProductOrder(q, x / f, f);
  }

  lemma DivMonotone(x: int, y: int, f: int)
    requires f > 0 && x <= y
    ensures x / f <= y / f
  {
    DivBounds(x, f);
    DivBounds(y, f);
    ProductOrder(x / f, y / f, f);
  }

  lemma SplitIdentity(a: int, f: int)
    requires a >= 0 && f > 0
    ensures Micros(a, f) == a / f * MILLION + a % f * MILLION / f
    ensures a / f >= 0 && 0 <= a % f * MILLION / f
  {
    var b, c := a / f, a % f;
    var r := c * MILLION / f;
    DivBounds(c * MILLION, f);
    DivMonotone(0, c * MILLION, f);
    DivMonotone(0, a, f);
    DivUnique(0, f, 0);
    var q := b * MILLION + r;
    assert q * f == b * f * MILLION + r * f;
    assert a * MILLION == b * f * MILLION + c * MILLION;
    DivUnique(a * MILLION, f, q);
  }

  lemma MicrosMonotone(a: int, a': int, f: int)
    requires 0 <= a <= a' && f > 0
    ensures 0 <= Micros(a, f) <= Micros(a', f)
  {
    DivMonotone(0, a * MILLION, f);
    DivMonotone(a * MILLION, a' * MILLION, f);
    DivUnique(0, f, 0);
  }

  /** The frequencies for which the product of a remainder cannot overflow. */
  predicate SafeFrequency(f: uint64) {
    (f - 1) * MILLION < TWO64
  }

  lemma SplitIsExact(a: uint64, f: uint64)
    requires f > 0 && SafeFrequency(f) && Micros(a, f) < TWO64
    ensures CalculateMicroseconds(a, f) == Micros(a, f)
  {
    SplitIdentity(a, f);
    var b, c := a / f, a % f;
    assert c * MILLION <= (f - 1) * MILLION;
    SmallMod(c * MILLION, TWO64);
    SmallMod(b * MILLION, TWO64);
    SmallMod(b * MILLION + c * MILLION / f, TWO64);
  }

  lemma SmallMod(x: int, m: int)
    requires 0 <= x < m
    ensures x % m == x
  {
  }

  ghost predicate ExactWheneverItFits(f: uint64)
    requires f > 0
  {
    forall a: uint64 :: Micros(a, f) < TWO64 ==> CalculateMicroseconds(a, f) == Micros(a, f)
  }

  lemma SplitOverflows(f: uint64)
    requires f > 0 && !SafeFrequency(f)
    ensures Micros(f - 1, f) < TWO64
    ensures CalculateMicroseconds(f - 1, f) != Micros(f - 1, f)
  {
    DivUnique(f - 1, f, 0);
    WrapDropsQuotient((f - 1) * MILLION, f);
    var x := (f - 1) * MILLION;
    assert Micros(f - 1, f) == x / f < MILLION;
    assert CalculateMicroseconds(f - 1, f) == Wrap64(Wrap64(0) + Wrap64(x) / f);
    SmallMod(Wrap64(x) / f, TWO64);
  }

  lemma WrapDropsQuotient(x: int, f: uint64)
    requires f > 0 && TWO64 <= x < f * MILLION
    ensures 0 <= Wrap64(x) / f < x / f < MILLION
  {
    var w := Wrap64(x);
    assert w <= x - TWO64;
    DivUnique(0, f, 0);
    DivMonotone(0, w, f);
    DivMonotone(w, x - f, f);
    DivShift(x, f);
    DivBounds(x, f);
    ProductOrder(x / f, MILLION - 1, f);
  }

  lemma DivShift(x: int, f: int)
    requires f > 0
    ensures (x - f) / f == x / f - 1
  {
    DivBounds(x, f);
    assert (x / f - 1) * f == x / f * f - f;
    DivUnique(x - f, f, x / f - 1);
  }

  /** The split form is exact for every count whose result fits 64 bits, exactly when
      (f - 1) * 1000000 fits. */
  lemma SplitExactIff(f: uint64)
    requires f > 0
    ensures ExactWheneverItFits(f) <==> SafeFrequency(f)
  {
    if SafeFrequency(f) {
      forall a: uint64 | Micros(a, f) < TWO64
        ensures CalculateMicroseconds(a, f) == Micros(a, f)
      {
        SplitIsExact(a, f);
      }
    } else {
      SplitOverflows(f);
    }
  }

  const EPOCH_MICROS: int := 11644473600000000

  /** What the clock shows at `emulated` microseconds when it was started at `init` with wall time
      `base`. */
  function Reading(base: uint64, init: uint64, emulated: uint64): TimeValue {
    var microdiff := Wrap64(emulated - init);
    var now := Wrap64(base + microdiff);
    TimeValue(Wrap32(now / MILLION), now % MILLION)
  }

  /** While the wall time fits 32-bit seconds the reading is the start time plus the elapsed
      microseconds, so a clock whose counter does not go back does not go back. */
  lemma ClockNeverGoesBack(base: uint64, f: uint64, start: uint64, c: uint64, c': uint64)
    requires f > 0 && SafeFrequency(f) && start <= c <= c'
    requires Micros(c', f) < TWO64
    requires base + Micros(c', f) - Micros(start, f) < TWO32 * MILLION
    ensures var init := CalculateMicroseconds(start, f);
            var t, t' := Reading(base, init, CalculateMicroseconds(c, f)),
                         Reading(base, init, CalculateMicroseconds(c', f));
            && t.Normal() && t'.Normal()
            && t.Total() == base + Micros(c, f) - Micros(start, f)
            && t.Total() <= t'.Total()
  {
    MicrosMonotone(start, c, f);
    MicrosMonotone(c, c', f);
    SplitIsExact(start, f);
    SplitIsExact(c, f);
    SplitIsExact(c', f);
    ReadingIsSum(base, Micros(start, f), Micros(c, f));
    ReadingIsSum(base, Micros(start, f), Micros(c', f));
  }

  lemma ReadingIsSum(base: uint64, init: uint64, emulated: uint64)
    requires init <= emulated && base + emulated - init < TWO32 * MILLION
    ensures Reading(base, init, emulated).Normal()
    ensures Reading(base, init, emulated).Total() == base + emulated - init
  {
  }

  class EmulatedClock {
    var inited: bool
    var microseconds: uint64
    var initmicroseconds: uint64
    var frequency: uint64
    // The counts of the first and of the latest call.
    ghost var start: uint64
    ghost var last: uint64

    ghost predicate Valid()
      reads this
    {
      inited ==> frequency > 0 && initmicroseconds == CalculateMicroseconds(start, frequency)
    }

    /** What the latest call returned. */
    ghost function Shown(): TimeValue
      requires Valid() && inited
      reads this
    {
      Reading(microseconds, initmicroseconds, CalculateMicroseconds(last, frequency))
    }

    /** The emulated microseconds at `count` are no fewer than at the latest call, and the wall time
        there fits 32-bit seconds. */
    ghost predicate Advances(count: uint64)
      requires Valid() && inited
      reads this
    {
      var e := CalculateMicroseconds(count, frequency);
      && initmicroseconds <= CalculateMicroseconds(last, frequency) <= e
      && microseconds + e - initmicroseconds < TWO32 * MILLION
    }

    /** They advance with the counter as long as nothing overflows. */
    lemma CounterAdvances(count: uint64)
      requires Valid() && inited && start <= last <= count
      requires SafeFrequency(frequency) && Micros(count, frequency) < TWO64
      requires microseconds + Micros(count, frequency) - Micros(start, frequency) < TWO32 * MILLION
      ensures Advances(count)
    {
      MicrosMonotone(start, last, frequency);
      MicrosMonotone(last, count, frequency);
      SplitIsExact(start, frequency);
      SplitIsExact(last, frequency);
      SplitIsExact(count, frequency);
    }

    constructor ()
      ensures Valid() && !inited
    {
      inited := false;
      microseconds := 0;
      initmicroseconds := 0;
      frequency := 0;
    }

    lemma StepForward(count: uint64)
      requires Valid() && inited && Advances(count)
      ensures var t := Reading(microseconds, initmicroseconds, CalculateMicroseconds(count, frequency));
              t.Normal() && Shown().Total() <= t.Total()
    {
      ReadingIsSum(microseconds, initmicroseconds, CalculateMicroseconds(last, frequency));
      ReadingIsSum(microseconds, initmicroseconds, CalculateMicroseconds(count, frequency));
    }

    /** What the first call fixes. */
    method Init(count: uint64, systemFrequency: uint64, filetime: uint64)
      requires systemFrequency > 0
      modifies this
      ensures Valid() && inited && start == count && frequency == systemFrequency
      ensures microseconds == Wrap64(filetime / 10 - EPOCH_MICROS)
    {
      inited := true;
      frequency := systemFrequency;
      microseconds := filetime / 10;
      microseconds := Wrap64(microseconds - EPOCH_MICROS);
      initmicroseconds := CalculateMicroseconds(count, frequency);
      start := count;
    }

    /** The counter, its frequency and the wall time in units of 100 ns come from the system. */
    method CurrentTime(count: uint64, systemFrequency: uint64, filetime: uint64) returns (t: TimeValue)
      requires Valid() && systemFrequency > 0
      modifies this
      ensures Valid() && inited && last == count && t == Shown()
      ensures old(inited) ==> microseconds == old(microseconds) && initmicroseconds == old(initmicroseconds)
                              && frequency == old(frequency) && start == old(start)
      ensures !old(inited) ==> && frequency == systemFrequency
                               && microseconds
                                  == (filetime / 10 - (369 * 365 + 89) * 86400 * 1000000) % 0x1_0000_0000_0000_0000
                               && start == count
      ensures old(inited && Advances(count)) ==> t.Normal() && old(Shown()).Total() <= t.Total()
    {
      if inited && Advances(count) {
        StepForward(count);
      }
      if !inited {
        Init(count, systemFrequency, filetime);
      }
      last := count;
      t := Reading(microseconds, initmicroseconds, CalculateMicroseconds(count, frequency));
    }
  }
}
