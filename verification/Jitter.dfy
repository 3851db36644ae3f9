/** The upper bound of the exponential backoff, in 64-bit arithmetic that must not overflow. */
module Jitter {
  const MAX_INT64: int := 0x7FFF_FFFF_FFFF_FFFF

  newtype int64 = x: int | -0x8000_0000_0000_0000 <= x <= 0x7FFF_FFFF_FFFF_FFFF

  function Pow2(n: nat): nat
    ensures Pow2(n) > 0
  {
    if n == 0 then 1 else 2 * Pow2(n - 1)
  }

  lemma {:induction false} Pow2Grows(a: nat, b: nat)
    requires a <= b
    ensures Pow2(a) <= Pow2(b)
  {
    if a < b { Pow2Grows(a, b - 1); }
  }

  lemma Pow2Of62()
    ensures Pow2(62) == 0x4000_0000_0000_0000
  {
    assert Pow2(10) == 1024;
    assert Pow2(20) == 1024 * Pow2(10);
    assert Pow2(30) == 1024 * Pow2(20);
    assert Pow2(40) == 1024 * Pow2(30);
    assert Pow2(50) == 1024 * Pow2(40);
    assert Pow2(60) == 1024 * Pow2(50);
  }

  /** `1 << n` for n up to 62; the largest int64 beyond, zero below. */
  function SafePowerOfTwo(n: int64): (r: int64)
    ensures 0 <= n <= 62 ==> r as int == Pow2(n as nat)
    ensures n < 0 ==> r == 0
    ensures n > 62 ==> r as int == MAX_INT64 && r as int < Pow2(n as nat)
  {
    if n < 0 then 0
    else if n > 62 then
      assert Pow2(n as nat) >= Pow2(63) == 2 * Pow2(62) by { Pow2Grows(63, n as nat); }
      Pow2Of62();
      0x7FFF_FFFF_FFFF_FFFF
    else
      Pow2Grows(n as nat, 62);
      Pow2Of62();
      Pow2(n as nat) as int64
  }

  lemma QuotientBounds(b: int)
    requires b > 0
    ensures b * (MAX_INT64 / b) <= MAX_INT64 < b * (MAX_INT64 / b) + b
    ensures 0 <= MAX_INT64 / b <= MAX_INT64
  {
    var q := MAX_INT64 / b;
    assert MAX_INT64 == b * q + MAX_INT64 % b;
    if q > MAX_INT64 { TimesAtLeast(b, q); }
  }

  lemma TimesAtLeast(b: int, q: int)
    requires b >= 1 && q >= 0
    ensures b * q >= q
  {}

  lemma TimesMonotone(b: int, p: int, q: int)
    requires b >= 0 && p <= q
    ensures b * p <= b * q
  {}

  /** `math.MaxInt64 / b`: Go divides toward zero, and a zero divisor panics. */
  function MaxQuotient(b: int64): int64
    requires b != 0
  {
    if b > 0 then
      QuotientBounds(b as int);
      (MAX_INT64 / b as int) as int64
    else if b == -0x8000_0000_0000_0000 then 0
    else
      QuotientBounds(-(b as int));
      -((MAX_INT64 / -(b as int)) as int64)
  }

  /** The test rules out every product that would overflow. */
  lemma ProductFits(b: int64, p: int64)
    requires b != 0 && 0 <= p <= MaxQuotient(b)
    ensures 0 <= b as int * p as int <= MAX_INT64
  {
    if b > 0 {
      QuotientBounds(b as int);
      TimesMonotone(b as int, p as int, MaxQuotient(b) as int);
      TimesMonotone(b as int, 0, p as int);
    } else {
      assert p == 0;
    }
  }

  function ComputeJitterUpperBoundMs(baseMs: int64, maxMs: int64, attempts: int64): int64
    requires maxMs > 0 ==> baseMs != 0
  {
    if maxMs <= 0 then 0
    else
      var powerOfTwo := SafePowerOfTwo(attempts);
      if powerOfTwo > MaxQuotient(baseMs) then maxMs
      else
        ProductFits(baseMs, powerOfTwo);
        var product := baseMs * powerOfTwo;
        if product < maxMs then product else maxMs
  }

  function Min(a: int, b: int): int {
    if a < b then a else b
  }

  lemma TooBig(b: int, exact: int)
    requires b > 0 && exact > MAX_INT64 / b
    ensures b * exact > MAX_INT64
  {
    QuotientBounds(b);
    TimesMonotone(b, MAX_INT64 / b + 1, exact);
    assert b * (MAX_INT64 / b + 1) == b * (MAX_INT64 / b) + b;
  }

  /** For a positive base the bound is the mathematical min(maxMs, baseMs * 2^attempts). */
  lemma UpperBoundExact(baseMs: int64, maxMs: int64, attempts: int64)
    requires baseMs > 0 && maxMs > 0
    ensures ComputeJitterUpperBoundMs(baseMs, maxMs, attempts) as int ==
      if attempts < 0 then 0 else Min(maxMs as int, baseMs as int * Pow2(attempts as nat))
  {
    var b, power, q := baseMs as int, SafePowerOfTwo(attempts) as int, MaxQuotient(baseMs) as int;
    QuotientBounds(b);
    if attempts >= 0 {
      var exact := Pow2(attempts as nat);
      if power > q {
        TooBig(b, exact);
      } else if attempts > 62 {
        TimesAtLeast(b, exact);
        TimesAtLeast(b, power);
      }
    }
  }

  /** Without a positive maximum the bound is 0, and a negative base leaves the maximum, but for the least integer. */
  lemma UpperBoundElsewhere(baseMs: int64, maxMs: int64, attempts: int64)
    requires maxMs > 0 ==> baseMs < 0
    ensures ComputeJitterUpperBoundMs(baseMs, maxMs, attempts) ==
      if maxMs <= 0 || (baseMs == -0x8000_0000_0000_0000 && attempts < 0) then 0 else maxMs
  {
    if maxMs > 0 && baseMs != -0x8000_0000_0000_0000 { QuotientAtLeastOne(-(baseMs as int)); }
  }

  lemma QuotientAtLeastOne(b: int)
    requires 0 < b <= MAX_INT64
    ensures MAX_INT64 / b >= 1
  {
    var q := MAX_INT64 / b;
    QuotientBounds(b);
    assert q == 0 ==> b * q == 0;
  }

  /** More attempts never lower the bound. */
  lemma UpperBoundMonotone(baseMs: int64, maxMs: int64, fewer: int64, more: int64)
    requires baseMs > 0 && maxMs > 0 && fewer <= more
    ensures 0 <= ComputeJitterUpperBoundMs(baseMs, maxMs, fewer) <=
      ComputeJitterUpperBoundMs(baseMs, maxMs, more) <= maxMs
  {
    UpperBoundExact(baseMs, maxMs, fewer);
    UpperBoundExact(baseMs, maxMs, more);
    if fewer >= 0 {
      Pow2Grows(fewer as nat, more as nat);
      TimesMonotone(baseMs as int, Pow2(fewer as nat), Pow2(more as nat));
      TimesMonotone(baseMs as int, 0, Pow2(fewer as nat));
    } else if more >= 0 {
      TimesMonotone(baseMs as int, 0, Pow2(more as nat));
    }
  }
}
