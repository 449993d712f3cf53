/**
 Conversions between nanoseconds and CPU cycles. The source computes floor(a * b / c) without a
 128-bit product by splitting a = q * c + r; `/` and `%` are C's truncating operators.
 */
module CpuTime {

  const NS := 1_000_000_000
  const INT64_MAX := 0x7FFF_FFFF_FFFF_FFFF
  const INT64_MIN := -0x8000_0000_0000_0000
  type Hz = f: int | 0 <= f < 0x1_0000_0000

  /** C division: truncates toward zero. */
  function Quot(a: int, b: int): int
    requires b > 0
  {
    if a >= 0 then a / b else -((-a) / b)
  }

  /** C remainder: carries the sign of the dividend. */
  function Rem(a: int, b: int): int
    requires b > 0
  {
    a - Quot(a, b) * b
  }

  function NsToCycles(ns: int, freq: Hz): int {
    Quot(ns, NS) * freq + Quot(Rem(ns, NS) * freq, NS)
  }

  function NsToCyclesCeil(ns: int, freq: Hz): int {
    Quot(ns, NS) * freq + Quot(Rem(ns, NS) * freq + (NS - 1), NS)
  }

  function CyclesToNs(cycles: int, freq: Hz): int {
    if freq == 0 then 0 else Quot(cycles, freq) * NS + Quot(Rem(cycles, freq) * NS, freq)
  }

  // ---- division ----

  lemma MulAtLeast(a: int, c: int)
    requires a >= 1 && c > 0
    ensures a * c >= c
  {
  }

  lemma DivIs(x: int, c: int, d: int)
    requires c > 0 && d * c <= x < d * c + c
    ensures x / c == d
  {
    var q := x / c;
    assert x == q * c + x % c;
    if q > d {
      MulAtLeast(q - d, c);
      assert false;
    } else if q < d {
      MulAtLeast(d - q, c);
      assert false;
    }
  }

  lemma DivBounds(x: int, c: int)
    requires c > 0
    ensures x / c * c <= x < x / c * c + c
  {
  }

  lemma DivNonneg(x: int, c: int)
    requires x >= 0 && c > 0
    ensures x / c >= 0
  {
  }

  lemma MulMono(a: int, b: int, c: int)
    requires a <= b && c >= 0
    ensures a * c <= b * c
  {
  }

  /** (a * b) / c == q * b + (r * b) / c for a = q * c + r. */
  lemma SplitQuotient(a: int, b: int, c: int)
    requires a >= 0 && b >= 0 && c > 0
    ensures a / c * b + (a % c * b) / c == a * b / c
  {
    var q, r := a / c, a % c;
    assert a * b == q * b * c + r * b by {
      assert a == q * c + r;
      assert (q * c + r) * b == q * c * b + r * b;
      assert q * c * b == q * b * c;
    }
    var m := r * b / c;
    DivBounds(r * b, c);
    assert (q * b + m) * c == q * b * c + m * c;
    DivIs(a * b, c, q * b + m);
  }

  // ---- the conversions are exact ----

  lemma QuotRem(n: int, c: int)
    requires n >= 0 && c > 0
    ensures Quot(n, c) == n / c && Rem(n, c) == n % c
    ensures Quot(-n, c) == -(n / c) && Rem(-n, c) == -(n % c)
  {
    NegateProduct(n / c, c);
  }

  /** The split form is the truncated quotient of the full product, at either sign. */
  lemma SplitIsExact(a: int, b: int, c: int)
    requires b >= 0 && c > 0
    ensures Quot(a, c) * b + Quot(Rem(a, c) * b, c) == Quot(a * b, c)
  {
    var n := if a >= 0 then a else -a;
    var q, r := n / c, n % c;
    SplitQuotient(n, b, c);
    QuotRem(n, c);
    MulMono(0, r, b);
    MulMono(0, n, b);
    QuotRem(r * b, c);
    QuotRem(n * b, c);
    if a < 0 {
      NegateProduct(q, b);
      NegateProduct(r, b);
      NegateProduct(n, b);
    }
  }

  lemma NegateProduct(x: int, y: int)
    ensures (-x) * y == -(x * y)
  {
  }

  lemma NsToCyclesExact(ns: int, freq: Hz)
    ensures NsToCycles(ns, freq) == Quot(ns * freq, NS)
  {
    SplitIsExact(ns, freq, NS);
  }

  lemma CyclesToNsExact(cycles: int, freq: Hz)
    requires freq > 0
    ensures CyclesToNs(cycles, freq) == Quot(cycles * NS, freq)
  {
    SplitIsExact(cycles, NS, freq);
  }

  /** Without a frequency nothing ever passes, in either direction. */
  lemma NoFrequency(x: int)
    ensures CyclesToNs(x, 0) == 0 && NsToCycles(x, 0) == 0 && NsToCyclesCeil(x, 0) == 0
  {
    NsToCyclesExact(x, 0);
  }

  /** `c` cycles are the first that are not before `ns`. */
  predicate IsCeiling(c: int, ns: int, freq: Hz) {
    (c - 1) * NS < ns * freq <= c * NS
  }

  /** The carry the ceiling variant adds, for the product `y` of the remainder and the frequency. */
  lemma CeilingCarry(y: int)
    ensures var e := Quot(y + (NS - 1), NS);
            (e - 1) * NS < y <= e * NS <==> y > -NS || (1 - y) % NS == 0
  {
  }

  lemma SplitTime(ns: int, freq: Hz, e: int)
    ensures var q, y := Quot(ns, NS), Rem(ns, NS) * freq;
            ns * freq == q * freq * NS + y && (q * freq + e) * NS == q * freq * NS + e * NS
  {
    var q, r := Quot(ns, NS), Rem(ns, NS);
    assert ns == q * NS + r;
    assert (q * NS + r) * freq == q * NS * freq + r * freq;
    assert q * NS * freq == q * freq * NS;
  }

  /**
   The ceiling variant is the exact ceiling for every time whose remainder times the frequency is above -10^9, so
   for all nonnegative times, and below that only where the product is one above a multiple of 10^9.
   */
  lemma CeilExactIff(ns: int, freq: Hz)
    ensures IsCeiling(NsToCyclesCeil(ns, freq), ns, freq) <==>
            Rem(ns, NS) * freq > -NS || (1 - Rem(ns, NS) * freq) % NS == 0
  {
    var y := Rem(ns, NS) * freq;
    CeilingCarry(y);
    SplitTime(ns, freq, Quot(y + (NS - 1), NS));
  }

  /** One nanosecond before the start, at 1 GHz, it is a cycle late. */
  lemma CeilLate()
    ensures NsToCyclesCeil(-1, 1_000_000_000) == 0 && !IsCeiling(0, -1, 1_000_000_000)
  {
  }

  lemma CeilIsExact(ns: int, freq: Hz)
    requires ns >= 0
    ensures var c := NsToCyclesCeil(ns, freq); c >= 0 && IsCeiling(c, ns, freq)
  {
    CeilExactIff(ns, freq);
    QuotRem(ns, NS);
    MulMono(0, ns % NS, freq);
    MulMono(0, ns / NS, freq);
  }

  /** For nonnegative times the result of either floor form, as bounds. */
  lemma NsToCyclesFloor(ns: int, freq: Hz)
    requires ns >= 0
    ensures var c := NsToCycles(ns, freq); c >= 0 && c * NS <= ns * freq < (c + 1) * NS
  {
    NsToCyclesExact(ns, freq);
    assert ns * freq >= 0;
  }

  lemma CyclesToNsFloor(cycles: int, freq: Hz)
    requires cycles >= 0 && freq > 0
    ensures var t := CyclesToNs(cycles, freq); t >= 0 && t * freq <= cycles * NS < (t + 1) * freq
  {
    CyclesToNsExact(cycles, freq);
    DivBounds(cycles * NS, freq);
    var t := CyclesToNs(cycles, freq);
    assert (t + 1) * freq == t * freq + freq;
    if t < 0 {
      MulAtLeast(-t, freq);
      assert false;
    }
  }

  ghost predicate Fits(x: int) {
    INT64_MIN <= x <= INT64_MAX
  }

  lemma RemainderRange(a: int, c: int)
    requires c > 0
    ensures -c < Rem(a, c) < c
    ensures a >= 0 ==> Quot(a, c) >= 0 && Rem(a, c) >= 0
    ensures a <= 0 ==> Quot(a, c) <= 0 && Rem(a, c) <= 0
  {
    var n := if a >= 0 then a else -a;
    QuotRem(n, c);
    DivNonneg(n, c);
  }

  /** Both parts of a split result have its sign, so if their sum fits, the first does. */
  lemma SameSign(x: int, y: int)
    requires Fits(x + y) && ((x >= 0 && y >= 0) || (x <= 0 && y <= 0))
    ensures Fits(x)
  {
  }

  lemma ProductRange(r: int, c: int, f: int)
    requires -c < r < c && f >= 0
    ensures -(c * f) <= r * f <= c * f
  {
    MulMono(r, c, f);
    MulMono(-r, c, f);
    NegateProduct(r, f);
  }

  /** No intermediate value leaves int64_t when the result is representable, at either sign (the header's claim). */
  lemma NoOverflow(ns: int, freq: Hz)
    requires Fits(ns)
    ensures Fits(NsToCycles(ns, freq)) ==> Fits(Quot(ns, NS) * freq) && Fits(Rem(ns, NS) * freq)
    ensures Fits(NsToCyclesCeil(ns, freq)) ==> Fits(Quot(ns, NS) * freq) && Fits(Rem(ns, NS) * freq + (NS - 1))
  {
    var q, r := Quot(ns, NS), Rem(ns, NS);
    RemainderRange(ns, NS);
    ProductRange(r, NS, freq);
    SignOfProduct(q, freq);
    SignOfProduct(r, freq);
    SmallCarry(r * freq);
    if Fits(NsToCycles(ns, freq)) { SameSign(q * freq, Quot(r * freq, NS)); }
    if Fits(NsToCyclesCeil(ns, freq)) { SameSign(q * freq, Quot(r * freq + (NS - 1), NS)); }
  }

  lemma SignOfProduct(x: int, f: int)
    requires f >= 0
    ensures (x >= 0 ==> x * f >= 0) && (x <= 0 ==> x * f <= 0)
  {
  }

  lemma SmallCarry(y: int)
    ensures y >= 0 ==> Quot(y, NS) >= 0 && Quot(y + (NS - 1), NS) >= 0
    ensures y <= 0 ==> Quot(y, NS) <= 0 && Quot(y + (NS - 1), NS) <= 0
  {
  }

  lemma NoOverflowToNs(cycles: int, freq: Hz)
    requires freq > 0 && Fits(cycles) && Fits(CyclesToNs(cycles, freq))
    ensures Fits(Quot(cycles, freq) * NS) && Fits(Rem(cycles, freq) * NS)
  {
    var q, r := Quot(cycles, freq), Rem(cycles, freq);
    RemainderRange(cycles, freq);
    RemainderRange(r * NS, freq);
    SameSign(q * NS, Quot(r * NS, freq));
  }

  /** Galois connection: a cycle is at or after a deadline exactly from the ceiling cycle on. */
  lemma CeilIsFirstCycle(c: int, ns: int, freq: Hz)
    requires c >= 0 && ns >= 0 && freq > 0
    ensures CyclesToNs(c, freq) >= ns <==> c >= NsToCyclesCeil(ns, freq)
  {
    var t, k := CyclesToNs(c, freq), NsToCyclesCeil(ns, freq);
    CyclesToNsFloor(c, freq);
    CeilIsExact(ns, freq);
    if t >= ns {
      MulMono(ns, t, freq);
    } else {
      MulMono(t + 1, ns, freq);
    }
  }

  /** At up to 1 GHz distinct cycles have distinct times, and the ceiling undoes the conversion. */
  lemma CeilUndoes(c: int, freq: Hz)
    requires c >= 0 && 0 < freq <= NS
    ensures NsToCyclesCeil(CyclesToNs(c, freq), freq) == c
  {
    var t := CyclesToNs(c, freq);
    CyclesToNsFloor(c, freq);
    CeilIsExact(t, freq);
    var k := NsToCyclesCeil(t, freq);
    assert (t + 1) * freq == t * freq + freq;
  }

  /** Above 1 GHz it does not: two cycles share a nanosecond. */
  lemma CeilLosesAboveGHz(freq: Hz)
    requires freq > NS
    ensures exists c: int :: c >= 0 && NsToCyclesCeil(CyclesToNs(c, freq), freq) != c
  {
    CyclesToNsFloor(1, freq);
    var t := CyclesToNs(1, freq);
    assert t == 0 by {
      if t >= 1 {
        MulAtLeast(t, freq);
        assert false;
      }
    }
    assert NsToCyclesCeil(0, freq) == 0;
    assert NsToCyclesCeil(CyclesToNs(1, freq), freq) != 1;
  }
}
