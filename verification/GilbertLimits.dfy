/**
 Where the chain settles in the long run, and when it does: it does not if it has to change its state every frame.
 */
module GilbertLimits {
  import opened GilbertElliott

  /** From frame `n` on, the probability of BAD stays within `eps` of `share`. */
  ghost predicate StaysNear(c: Chain, bad: real, share: real, eps: real, n: nat) {
    forall m: nat :: m >= n ==> -eps <= After(c, bad, m) - share <= eps
  }

  ghost predicate ComesNear(c: Chain, bad: real, share: real, eps: real) {
    exists n: nat :: StaysNear(c, bad, share, eps, n)
  }

  /** Started at `bad`, the chain settles at `share`. */
  ghost predicate Settles(c: Chain, bad: real, share: real) {
    forall eps :: eps > 0.0 ==> ComesNear(c, bad, share, eps)
  }

  // ---- powers of a factor below one vanish ----

  /** Bernoulli's inequality for the reciprocal. */
  lemma {:induction false} PowerBound(a: real, n: nat)
    requires 0.0 <= a <= 1.0
    ensures 0.0 <= Power(a, n) && Power(a, n) * (1.0 + n as real * (1.0 - a)) <= 1.0
  {
    if n > 0 {
      PowerBound(a, n - 1);
      BoundStep(a, (n - 1) as real, Power(a, n - 1), Power(a, n));
    }
  }

  lemma BoundStep(a: real, n: real, w: real, power: real)
    requires 0.0 <= a <= 1.0 && n >= 0.0 && w >= 0.0 && power == a * w && w * (1.0 + n * (1.0 - a)) <= 1.0
    ensures power >= 0.0 && power * (1.0 + (n + 1.0) * (1.0 - a)) <= 1.0
  {
    var g := 1.0 - a;
    var x, y := 1.0 + n * g, a * (1.0 + (n + 1.0) * g);
    assert x - y == (n + 1.0) * g * g by {
      assert (1.0 - g) * (1.0 + (n + 1.0) * g) == 1.0 + n * g - (n + 1.0) * g * g;
    }
    NotNegative(g, g);
    NotNegative(n + 1.0, g * g);
    NotNegative(a, w);
    NotNegative(w, x - y);
    assert w * (x - y) == w * x - w * y;
    assert power * (1.0 + (n + 1.0) * g) == w * y;
  }

  lemma NotNegative(x: real, y: real)
    requires x >= 0.0 && y >= 0.0
    ensures x * y >= 0.0
  {
  }

  lemma {:induction false} PowerOfSize(k: real, a: real, n: nat)
    requires a == if k < 0.0 then -k else k
    ensures -Power(a, n) <= Power(k, n) <= Power(a, n)
    ensures Power(k, n) == Power(a, n) || Power(k, n) == -Power(a, n)
  {
    if n > 0 {
      PowerOfSize(k, a, n - 1);
      var w, v := Power(k, n - 1), Power(a, n - 1);
      SizeStep(k, a, w, v);
      PowerSign(a, n);
    }
  }

  lemma SizeStep(k: real, a: real, w: real, v: real)
    requires (a == k || a == -k) && (w == v || w == -v)
    ensures k * w == a * v || k * w == -(a * v)
  {
  }

  lemma {:induction false} PowerSign(a: real, n: nat)
    requires a >= 0.0
    ensures Power(a, n) >= 0.0
  {
    if n > 0 {
      PowerSign(a, n - 1);
      NotNegative(a, Power(a, n - 1));
    }
  }

  /** So many frames bring the power below `eps`. */
  function Frames(a: real, eps: real): (n: nat)
    requires 0.0 <= a < 1.0 && eps > 0.0
  {
    FramesFor(1.0 - a, eps)
  }

  function FramesFor(g: real, eps: real): (n: nat)
    requires g > 0.0 && eps > 0.0
  {
    var x := 1.0 / g / eps;
    assert 1.0 / g > 0.0 && x > 0.0;
    x.Floor + 1
  }

  lemma FramesEnough(g: real, eps: real, n: nat)
    requires g > 0.0 && eps > 0.0 && n >= FramesFor(g, eps)
    ensures n as real * g * eps >= 1.0
  {
    var x := 1.0 / g / eps;
    Cancels(1.0, g);
    Cancels(1.0 / g, eps);
    var m := n as real;
    assert m >= x;
    Larger(x, m, eps);
    Larger(x * eps, m * eps, g);
    assert m * eps * g == m * g * eps;
  }

  lemma Larger(x: real, y: real, k: real)
    requires x <= y && k > 0.0
    ensures x * k <= y * k
  {
    NotNegative(y - x, k);
    assert (y - x) * k == y * k - x * k;
  }

  lemma PowerVanishes(a: real, eps: real, n: nat)
    requires 0.0 <= a < 1.0 && eps > 0.0 && n >= Frames(a, eps)
    ensures 0.0 <= Power(a, n) <= eps
  {
    var g, w, m := 1.0 - a, Power(a, n), n as real;
    PowerBound(a, n);
    FramesEnough(g, eps, n);
    NotNegative(m, g);
    BelowCore(w, m * g, eps);
  }

  lemma BelowCore(w: real, x: real, eps: real)
    requires x >= 0.0 && eps > 0.0 && w * (1.0 + x) <= 1.0 && x * eps >= 1.0
    ensures w <= eps
  {
    assert eps * (1.0 + x) == eps + x * eps;
    ScaleLess(w, eps, 1.0 + x);
  }

  // ---- where the chain settles ----

  /** It does not have to change its state every frame. */
  predicate Mixes(c: Chain) {
    Chance(c.p) + Chance(c.r) < 2.0
  }

  lemma Contracts(c: Chain, bad: real, share: real, eps: real)
    requires Balanced(c, share) && Mixes(c) && Chance(c.p) + Chance(c.r) > 0.0 && eps > 0.0
    requires 0.0 <= bad <= 1.0 && 0.0 <= share <= 1.0
    ensures ComesNear(c, bad, share, eps)
  {
    var k := 1.0 - Chance(c.p) - Chance(c.r);
    var a := if k < 0.0 then -k else k;
    var n := Frames(a, eps);
    forall m: nat | m >= n ensures -eps <= After(c, bad, m) - share <= eps {
      Deviation(c, bad, m, share);
      PowerOfSize(k, a, m);
      PowerVanishes(a, eps, m);
      SmallProduct(Power(k, m), bad - share, eps);
    }
    assert StaysNear(c, bad, share, eps, n);
  }

  lemma SmallProduct(x: real, y: real, eps: real)
    requires -eps <= x <= eps && -1.0 <= y <= 1.0
    ensures -eps <= x * y <= eps
  {
    NotNegative(eps - x, 1.0 - y);
    NotNegative(eps - x, 1.0 + y);
    NotNegative(eps + x, 1.0 - y);
    NotNegative(eps + x, 1.0 + y);
    assert (eps - x) * (1.0 - y) == eps - eps * y - x + x * y;
    assert (eps - x) * (1.0 + y) == eps + eps * y - x - x * y;
    assert (eps + x) * (1.0 - y) == eps - eps * y + x - x * y;
    assert (eps + x) * (1.0 + y) == eps + eps * y + x + x * y;
  }

  lemma {:induction false} PowerOfMinusOne(n: nat)
    ensures Power(-1.0, 2 * n) == 1.0 && Power(-1.0, 2 * n + 1) == -1.0
  {
    if n > 0 {
      PowerOfMinusOne(n - 1);
      assert Power(-1.0, 2 * n) == -1.0 * Power(-1.0, 2 * n - 1);
    }
    assert Power(-1.0, 2 * n + 1) == -1.0 * Power(-1.0, 2 * n);
  }

  /** A chain that changes its state every frame swaps the two shares every frame, for ever. */
  lemma Alternates(c: Chain, bad: real, n: nat)
    requires !Mixes(c)
    ensures After(c, bad, 2 * n) == bad && After(c, bad, 2 * n + 1) == 1.0 - bad
  {
    assert Chance(c.p) == 1.0 && Chance(c.r) == 1.0;
    Deviation(c, bad, 2 * n, 0.5);
    Deviation(c, bad, 2 * n + 1, 0.5);
    PowerOfMinusOne(n);
  }

  lemma SettlesNowhere(c: Chain, bad: real, share: real)
    requires !Mixes(c) && bad != 0.5
    ensures !Settles(c, bad, share)
  {
    var eps := (if bad > 0.5 then bad - 0.5 else 0.5 - bad) / 2.0;
    forall n: nat ensures !StaysNear(c, bad, share, eps, n) {
      Alternates(c, bad, n);
      var m := if -eps <= bad - share <= eps then 2 * n + 1 else 2 * n;
      assert !(-eps <= After(c, bad, m) - share <= eps);
    }
    assert !ComesNear(c, bad, share, eps);
  }

  lemma Stands(c: Chain, share: real)
    requires Balanced(c, share)
    ensures Settles(c, share, share)
  {
    forall eps | eps > 0.0 ensures ComesNear(c, share, share, eps) {
      forall m: nat ensures -eps <= After(c, share, m) - share <= eps { Deviation(c, share, m, share); }
      assert StaysNear(c, share, share, eps, 0);
    }
  }

  /** The share the chain is in balance at: the drop rate asked for, or the largest it can reach. */
  function Reached(avgDrop: real, burstLen: real): (s: real)
    ensures 0.0 <= s <= 1.0
  {
    var d, b := Drop(avgDrop), BurstLength(burstLen);
    if d <= b / (b + 1.0) then d else b / (b + 1.0)
  }

  /** A calibrated chain has to change its state every frame exactly for a burst length of 1 and a drop from 1/2 on. */
  lemma MixesIff(avgDrop: real, burstLen: real)
    ensures Mixes(Calibrated(avgDrop, burstLen)) <==> BurstLength(burstLen) > 1.0 || Drop(avgDrop) < 0.5
  {
    var c, d, b := Calibrated(avgDrop, burstLen), Drop(avgDrop), BurstLength(burstLen);
    Balance(avgDrop, burstLen);
    if b > 1.0 {
      assert c.r < 1.0 by { if c.r >= 1.0 { Larger(1.0, c.r, b); assert false; } }
    } else {
      assert c.r == 1.0;
      ProperIff(avgDrop, burstLen);
      assert c.p * (1.0 - d) == d;
      if d < 0.5 {
        assert c.p < 1.0 by { if c.p >= 1.0 { Larger(1.0, c.p, 1.0 - d); assert false; } }
      } else {
        assert c.p >= 1.0 by { if c.p < 1.0 { Larger(c.p, 1.0, 1.0 - d); assert false; } }
      }
    }
  }

  /**
   From the drop rate asked for the chain settles at the balanced share, and nowhere at all exactly if the burst
   length is 1 and the drop rate above 1/2: then it swaps the drop rate and its complement every frame.
   */
  lemma SettlesIff(avgDrop: real, burstLen: real)
    ensures var c := Calibrated(avgDrop, burstLen);
            && (Settles(c, c.piBad, Reached(avgDrop, burstLen)) <==>
                BurstLength(burstLen) > 1.0 || Drop(avgDrop) <= 0.5)
            && ((exists share :: Settles(c, c.piBad, share)) <==>
                BurstLength(burstLen) > 1.0 || Drop(avgDrop) <= 0.5)
  {
    var c, share := Calibrated(avgDrop, burstLen), Reached(avgDrop, burstLen);
    var d, b := Drop(avgDrop), BurstLength(burstLen);
    Balance(avgDrop, burstLen);
    BalancedAt(avgDrop, burstLen);
    MixesIff(avgDrop, burstLen);
    if Mixes(c) {
      forall eps | eps > 0.0 ensures ComesNear(c, d, share, eps) { Contracts(c, d, share, eps); }
    } else if d == 0.5 {
      assert b / (b + 1.0) == 0.5;
      Stands(c, share);
    } else {
      forall x ensures !Settles(c, d, x) { SettlesNowhere(c, d, x); }
    }
  }

  /** From every start it settles there exactly if the burst length is above 1 or the drop rate below 1/2. */
  lemma SettlesFromAnywhereIff(avgDrop: real, burstLen: real)
    ensures var c := Calibrated(avgDrop, burstLen);
            (forall bad :: 0.0 <= bad <= 1.0 ==> Settles(c, bad, Reached(avgDrop, burstLen))) <==>
            BurstLength(burstLen) > 1.0 || Drop(avgDrop) < 0.5
  {
    var c, share := Calibrated(avgDrop, burstLen), Reached(avgDrop, burstLen);
    Balance(avgDrop, burstLen);
    BalancedAt(avgDrop, burstLen);
    MixesIff(avgDrop, burstLen);
    if Mixes(c) {
      forall bad | 0.0 <= bad <= 1.0 ensures Settles(c, bad, share) {
        forall eps | eps > 0.0 ensures ComesNear(c, bad, share, eps) { Contracts(c, bad, share, eps); }
      }
    } else {
      SettlesNowhere(c, 0.0, share);
    }
  }
}
