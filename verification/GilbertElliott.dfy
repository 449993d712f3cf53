/**
 The Gilbert-Elliott burst-loss chain: two states, GOOD (deliver) and BAD (drop), with transition
 probabilities calibrated from an average drop rate and a mean burst length. Probabilities are exact reals.
 */
module GilbertElliott {
  datatype State = Good | Bad

  datatype Chain = Chain(p: real, r: real, piBad: real)

  // ---- the code ----

  /** The knobs after clamping. */
  function Drop(avgDrop: real): (d: real)
    ensures 0.0 <= d <= 0.999
  {
    if avgDrop < 0.0 then 0.0 else if avgDrop > 0.999 then 0.999 else avgDrop
  }

  function BurstLength(burstLen: real): (b: real)
    ensures b >= 1.0
  {
    if burstLen < 1.0 then 1.0 else burstLen
  }

  method Calibrate(avgDrop: real, burstLen: real) returns (c: Chain)
    ensures c.piBad == Drop(avgDrop) && c.r * BurstLength(burstLen) == 1.0
    ensures c.p * (1.0 - c.piBad) == c.r * c.piBad
    ensures c == Calibrated(avgDrop, burstLen)
  {
    var drop, burst := avgDrop, burstLen;
    if drop < 0.0 { drop := 0.0; }
    if drop > 0.999 { drop := 0.999; }
    if burst < 1.0 { burst := 1.0; }
    var r := 1.0 / burst;
    c := Chain(r * drop / (1.0 - drop), r, drop);
    Cancels(1.0, burst);
    Cancels(r * drop, 1.0 - drop);
  }

  function Calibrated(avgDrop: real, burstLen: real): Chain {
    var d, b := Drop(avgDrop), BurstLength(burstLen);
    Chain(1.0 / b * d / (1.0 - d), 1.0 / b, d)
  }

  function Advance(s: State, c: Chain, u: real): State {
    match s
    case Good => if u < c.p then Bad else Good
    case Bad => if u < c.r then Good else Bad
  }

  function Initial(piBad: real, u: real): State {
    if u < piBad then Bad else Good
  }

  // ---- arithmetic ----

  lemma Cancels(x: real, y: real)
    requires y != 0.0
    ensures x / y * y == x
  {
  }

  lemma ScaleLess(x: real, y: real, k: real)
    requires k > 0.0
    ensures x <= y <==> x * k <= y * k
  {
    if x <= y { assert (y - x) * k >= 0.0; } else { assert (x - y) * k > 0.0; }
  }

  lemma UnitProduct(r: real, b: real, d: real)
    requires r * b == 1.0
    ensures r * d * b == d
  {
    var k := r * b;
    assert r * d * b == k * d;
  }

  lemma Distribute(d: real, b: real)
    ensures (1.0 - d) * b == b - d * b && d * (b + 1.0) == d * b + d
  {
  }

  lemma LimitShare(b: real, r: real, t: real)
    requires b >= 1.0 && r * b == 1.0 && t * (b + 1.0) == b
    ensures t * (1.0 + r) == 1.0
  {
    var x := t * (1.0 + r);
    assert x * b == t * b + t * (r * b);
    assert x * b == b;
    SameFactor(x, 1.0, b);
  }

  lemma Scaled(x: real, y: real, k: real, xk: real, yk: real)
    requires k > 0.0 && x * k == xk && y * k == yk
    ensures x <= y <==> xk <= yk
  {
    ScaleLess(x, y, k);
  }

  // ---- the knobs ----

  function Distance(x: real, y: real): real {
    if x <= y then y - x else x - y
  }

  /** The knobs are moved as little as possible into their ranges, so values inside them are kept. */
  lemma KnobsAreNearest(avgDrop: real, burstLen: real, d: real, b: real)
    requires 0.0 <= d <= 0.999 && b >= 1.0
    ensures Distance(avgDrop, Drop(avgDrop)) <= Distance(avgDrop, d)
    ensures Distance(burstLen, BurstLength(burstLen)) <= Distance(burstLen, b)
    ensures 0.0 <= avgDrop <= 0.999 ==> Calibrated(avgDrop, burstLen).piBad == avgDrop
    ensures burstLen >= 1.0 ==> Calibrated(avgDrop, burstLen).r * burstLen == 1.0
  {
    Cancels(1.0, BurstLength(burstLen));
  }

  // ---- what calibration achieves ----

  /** How often a uniform draw from the unit interval is below `x`. */
  function Chance(x: real): (q: real)
    ensures 0.0 <= q <= 1.0
  {
    if x < 0.0 then 0.0 else if x > 1.0 then 1.0 else x
  }

  /** The facts about the parameters everything else rests on. */
  lemma Balance(avgDrop: real, burstLen: real)
    ensures var c := Calibrated(avgDrop, burstLen);
            && 0.0 < c.r <= 1.0 && c.p >= 0.0 && c.r * BurstLength(burstLen) == 1.0
            && c.p * (1.0 - c.piBad) == c.r * c.piBad
  {
    var d, b := Drop(avgDrop), BurstLength(burstLen);
    Cancels(1.0, b);
    assert 1.0 / b > 0.0;
    ScaleLess(1.0 / b, 1.0, b);
    Cancels(1.0 / b * d, 1.0 - d);
    assert 1.0 / b * d >= 0.0;
  }

  /** The chance of leaving GOOD is a probability exactly up to an average drop of b / (b + 1). */
  lemma ProperIff(avgDrop: real, burstLen: real)
    ensures var c, b := Calibrated(avgDrop, burstLen), BurstLength(burstLen);
            c.p <= 1.0 <==> c.piBad <= b / (b + 1.0)
  {
    var c, d, b := Calibrated(avgDrop, burstLen), Drop(avgDrop), BurstLength(burstLen);
    Balance(avgDrop, burstLen);
    Cancels(b, b + 1.0);
    ProperCore(c.p, c.r, d, 1.0 - d, b, b / (b + 1.0));
  }

  lemma ProperCore(p: real, r: real, d: real, good: real, b: real, q: real)
    requires 0.0 <= d < 1.0 && good == 1.0 - d && b >= 1.0 && r * b == 1.0 && p * good == r * d && q * (b + 1.0) == b
    ensures p <= 1.0 <==> d <= q
  {
    UnitProduct(r, b, d);
    AtMostOne(p, good, r * d);
    Scaled(r * d, good, b, d, good * b);
    Distribute(d, b);
    Scaled(d, q, b + 1.0, d * b + d, b);
  }

  lemma AtMostOne(p: real, k: real, product: real)
    requires k > 0.0 && p * k == product
    ensures p <= 1.0 <==> product <= k
  {
    ScaleLess(p, 1.0, k);
  }

  /** The share of BAD one frame later. */
  function Next(bad: real, p: real, r: real): real {
    (1.0 - bad) * p + bad * (1.0 - r)
  }

  /** The probability of BAD after some frames, for transition probabilities `p` and `r`. */
  function Spread(p: real, r: real, bad: real, frames: nat): real {
    if frames == 0 then bad
    else Next(Spread(p, r, bad, frames - 1), p, r)
  }

  function After(c: Chain, bad: real, frames: nat): real {
    Spread(Chance(c.p), Chance(c.r), bad, frames)
  }

  function Power(x: real, n: nat): real {
    if n == 0 then 1.0 else x * Power(x, n - 1)
  }

  /** At `share` the chain is in balance: as much flows out of BAD as into it. */
  ghost predicate Balanced(c: Chain, share: real) {
    share * (Chance(c.p) + Chance(c.r)) == Chance(c.p)
  }

  /** One frame shrinks the distance to the balanced share by the factor 1 - p - r. */
  lemma Shrinks(p: real, r: real, t: real, bad: real)
    requires t * (p + r) == p
    ensures (1.0 - bad) * p + bad * (1.0 - r) - t == (1.0 - p - r) * (bad - t)
  {
    assert (1.0 - bad) * p + bad * (1.0 - r) == p + bad - bad * p - bad * r;
    assert (1.0 - p - r) * (bad - t) == bad - t - bad * p - bad * r + t * (p + r);
  }

  lemma {:induction false} DeviationAt(p: real, r: real, bad: real, frames: nat, t: real, k: real, power: real,
                                       after: real)
    requires t * (p + r) == p && k == 1.0 - p - r && power == Power(k, frames) && after == Spread(p, r, bad, frames)
    ensures after - t == power * (bad - t)
    decreases frames
  {
    if frames > 0 {
      var before, w := Spread(p, r, bad, frames - 1), Power(k, frames - 1);
      DeviationAt(p, r, bad, frames - 1, t, k, w, before);
      StepCore(p, r, k, t, w, power, bad, before, after);
    }
  }

  /** From any start the distance after n frames is the initial one times the n-th power of that factor. */
  lemma Deviation(c: Chain, bad: real, frames: nat, share: real)
    requires Balanced(c, share)
    ensures After(c, bad, frames) - share == Power(1.0 - Chance(c.p) - Chance(c.r), frames) * (bad - share)
  {
    var k := 1.0 - Chance(c.p) - Chance(c.r);
    DeviationAt(Chance(c.p), Chance(c.r), bad, frames, share, k, Power(k, frames), After(c, bad, frames));
  }

  lemma StepCore(p: real, r: real, k: real, t: real, w: real, power: real, bad: real, before: real, after: real)
    requires k == 1.0 - p - r && t * (p + r) == p && after == (1.0 - before) * p + before * (1.0 - r)
    requires before - t == w * (bad - t) && power == k * w
    ensures after - t == power * (bad - t)
  {
    Shrinks(p, r, t, before);
    Regroup(k, w, bad - t, before - t, after - t);
  }

  lemma Regroup(k: real, power: real, d: real, before: real, after: real)
    requires before == power * d && after == k * before
    ensures after == k * power * d
  {
  }

  /** Up to b / (b + 1) the chain is in balance at the average drop asked for; beyond, at b / (b + 1). */
  lemma BalancedAt(avgDrop: real, burstLen: real)
    ensures var c, b := Calibrated(avgDrop, burstLen), BurstLength(burstLen);
            Balanced(c, if c.piBad <= b / (b + 1.0) then c.piBad else b / (b + 1.0))
  {
    var c, d, b := Calibrated(avgDrop, burstLen), Drop(avgDrop), BurstLength(burstLen);
    Balance(avgDrop, burstLen);
    ProperIff(avgDrop, burstLen);
    if c.p <= 1.0 {
      assert d * (c.p + c.r) == c.p;
    } else {
      Cancels(b, b + 1.0);
      LimitShare(b, c.r, b / (b + 1.0));
    }
  }

  lemma Quotient(x: real, y: real, q: real)
    requires y > 0.0 && (q * y == x)
    ensures x / y == q
  {
  }

  /**
   Started from the drop rate asked for, the chain has it at every frame, if and only if that rate is at most
   b / (b + 1).
   */
  lemma StationaryIff(avgDrop: real, burstLen: real)
    ensures var c, b := Calibrated(avgDrop, burstLen), BurstLength(burstLen);
            (forall n: nat :: After(c, c.piBad, n) == c.piBad) <==> c.piBad <= b / (b + 1.0)
  {
    var c, b := Calibrated(avgDrop, burstLen), BurstLength(burstLen);
    BalancedAt(avgDrop, burstLen);
    if c.piBad <= b / (b + 1.0) {
      forall n: nat ensures After(c, c.piBad, n) == c.piBad { Deviation(c, c.piBad, n, c.piBad); }
    } else {
      Balance(avgDrop, burstLen);
      ProperIff(avgDrop, burstLen);
      Deviation(c, c.piBad, 1, b / (b + 1.0));
      Moves(c, b / (b + 1.0));
      assert After(c, c.piBad, 1) != c.piBad;
    }
  }

  lemma Moves(c: Chain, share: real)
    requires c.p > 1.0 && 0.0 < c.r <= 1.0 && c.piBad > share
    ensures Power(1.0 - Chance(c.p) - Chance(c.r), 1) * (c.piBad - share) < 0.0
  {
    var k := 1.0 - Chance(c.p) - Chance(c.r);
    assert Power(k, 0) == 1.0 && Power(k, 1) == k;
    assert k < 0.0;
  }

  /** Neither state tells anything about the next exactly if the burst length is 1 / (1 - drop). */
  lemma MemorylessIff(avgDrop: real, burstLen: real)
    ensures var c := Calibrated(avgDrop, burstLen);
            Chance(c.p) == 1.0 - Chance(c.r) <==> BurstLength(burstLen) * (1.0 - Drop(avgDrop)) == 1.0
  {
    var c, d, b := Calibrated(avgDrop, burstLen), Drop(avgDrop), BurstLength(burstLen);
    Balance(avgDrop, burstLen);
    if b * (1.0 - d) == 1.0 {
      Quotient(1.0, b, 1.0 - d);
      assert c.r == 1.0 - d;
      assert c.p * c.r == c.r * d;
      SameFactor(c.p, d, c.r);
    }
    if Chance(c.p) == 1.0 - Chance(c.r) {
      assert c.p <= 1.0;
      assert (1.0 - c.r) * (1.0 - d) == c.r * d;
      assert 1.0 - d == c.r;
    }
  }

  lemma SameFactor(x: real, y: real, k: real)
    requires k != 0.0 && x * k == k * y
    ensures x == y
  {
    assert (x - y) * k == 0.0;
  }

  /** So a burst length of 1, described as memoryless, is so only for a channel that drops nothing. */
  lemma BurstOfOne(avgDrop: real)
    ensures var c := Calibrated(avgDrop, 1.0);
            Chance(c.p) == 1.0 - Chance(c.r) <==> Drop(avgDrop) == 0.0
  {
    MemorylessIff(avgDrop, 1.0);
  }

  /** Expected frames of a BAD spell that ends with chance `r` each frame, counted up to the n-th. */
  function Dwell(r: real, n: nat): real {
    if n == 0 then 0.0 else Dwell(r, n - 1) + Power(1.0 - r, n - 1)
  }

  lemma {:induction false} DwellAt(r: real, b: real, n: nat, k: real)
    requires r * b == 1.0 && k == 1.0 - r
    ensures Dwell(r, n) == b * (1.0 - Power(k, n))
    decreases n
  {
    if n > 0 {
      DwellAt(r, b, n - 1, k);
      DwellStep(b, r, Power(k, n - 1), Power(k, n), Dwell(r, n - 1), Dwell(r, n));
    }
  }

  /** The mean spell approaches the burst length, short of it by the chance that the spell is longer. */
  lemma DwellIs(avgDrop: real, burstLen: real, n: nat)
    ensures var r, b := Chance(Calibrated(avgDrop, burstLen).r), BurstLength(burstLen);
            Dwell(r, n) == b * (1.0 - Power(1.0 - r, n))
  {
    Balance(avgDrop, burstLen);
    var r := Calibrated(avgDrop, burstLen).r;
    DwellAt(r, BurstLength(burstLen), n, 1.0 - r);
  }

  lemma DwellStep(b: real, r: real, q: real, power: real, before: real, after: real)
    requires r * b == 1.0 && power == (1.0 - r) * q && before == b * (1.0 - q) && after == before + q
    ensures after == b * (1.0 - power)
  {
    assert b * (1.0 - power) == b - b * q + (r * b) * q;
  }
}
