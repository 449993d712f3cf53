/**
 A chain driven by draws. Over all equally likely sequences of draws, the share that ends in BAD is what the
 transition probabilities predict.
 */
module GilbertDraws {
  import opened GilbertElliott

  /** The state after the initial draw and one draw for each frame. */
  function StateAfter(c: Chain, draws: seq<real>): State
    requires draws != []
  {
    if |draws| == 1 then Initial(c.piBad, draws[0])
    else Advance(StateAfter(c, draws[..|draws| - 1]), c, draws[|draws| - 1])
  }

  /** The states the frames meet: each the state before its own draw. */
  function History(c: Chain, draws: seq<real>): seq<State> {
    if |draws| <= 1 then []
    else
      var before := draws[..|draws| - 1];
      History(c, before) + [StateAfter(c, before)]
  }

  lemma OneMore(c: Chain, draws: seq<real>, u: real)
    requires draws != []
    ensures StateAfter(c, draws + [u]) == Advance(StateAfter(c, draws), c, u)
    ensures History(c, draws + [u]) == History(c, draws) + [StateAfter(c, draws)]
  {
    assert (draws + [u])[..|draws|] == draws;
  }

  // ---- all sequences of draws ----

  /** `t` followed by each of the draws 1/n, 2/n, ... k/n. */
  function Extensions(t: seq<real>, n: nat, k: nat): (r: seq<seq<real>>)
    requires n > 0
    ensures |r| == k
  {
    if k == 0 then [] else Extensions(t, n, k - 1) + [t + [k as real / n as real]]
  }

  function ExtendAll(ts: seq<seq<real>>, n: nat): seq<seq<real>>
    requires n > 0
  {
    if ts == [] then [] else Extensions(ts[0], n, n) + ExtendAll(ts[1..], n)
  }

  /** All sequences of `m` draws from 1/n, 2/n, ... n/n; for n = 2^32 - 1 these are the values the generator takes. */
  function AllDraws(n: nat, m: nat): seq<seq<real>>
    requires n > 0
  {
    if m == 0 then [[]] else ExtendAll(AllDraws(n, m - 1), n)
  }

  predicate EndsBad(c: Chain, t: seq<real>) {
    t != [] && StateAfter(c, t) == Bad
  }

  /** How many of the sequences leave the chain in BAD. */
  function BadCount(c: Chain, ts: seq<seq<real>>): (b: nat)
    ensures b <= |ts|
  {
    if ts == [] then 0 else (if EndsBad(c, ts[0]) then 1 else 0) + BadCount(c, ts[1..])
  }

  /** How many of the draws 1/n, 2/n, ... k/n are below `q`, multiplied out. */
  function CountBelow(q: real, n: nat, k: nat): (b: nat)
    ensures b <= k
  {
    if k == 0 then 0 else CountBelow(q, n, k - 1) + if k as real < q * n as real then 1 else 0
  }

  // ---- counting ----

  lemma {:induction false} BadCountConcat(c: Chain, a: seq<seq<real>>, b: seq<seq<real>>)
    ensures BadCount(c, a + b) == BadCount(c, a) + BadCount(c, b)
  {
    if a == [] {
      assert a + b == b;
    } else {
      assert (a + b)[0] == a[0] && (a + b)[1..] == a[1..] + b;
      BadCountConcat(c, a[1..], b);
    }
  }

  lemma BadCountOne(c: Chain, t: seq<real>)
    ensures BadCount(c, [t]) == if EndsBad(c, t) then 1 else 0
  {
    assert [t][1..] == [];
  }

  lemma Threshold(q: real, u: real, j: real, n: real)
    requires n > 0.0 && u == j / n
    ensures u < q <==> j < q * n
  {
    Cancels(j, n);
    Scaled(q, u, n, q * n, j);
  }

  /** Where one more draw leads, from the start and from each state. */
  lemma LastDraw(c: Chain, t: seq<real>, u: real)
    ensures EndsBad(c, t + [u]) <==>
            if t == [] then u < c.piBad else if StateAfter(c, t) == Good then u < c.p else !(u < c.r)
  {
    if t == [] {
      assert t + [u] == [u];
    } else {
      OneMore(c, t, u);
    }
  }

  lemma {:induction false} CountExtensions(c: Chain, t: seq<real>, n: nat, k: nat)
    requires n > 0
    ensures BadCount(c, Extensions(t, n, k)) ==
            if t == [] then CountBelow(c.piBad, n, k)
            else if StateAfter(c, t) == Good then CountBelow(c.p, n, k)
            else k - CountBelow(c.r, n, k)
    decreases k
  {
    if k > 0 {
      var u := k as real / n as real;
      CountExtensions(c, t, n, k - 1);
      BadCountConcat(c, Extensions(t, n, k - 1), [t + [u]]);
      BadCountOne(c, t + [u]);
      LastDraw(c, t, u);
      CountOne(c.piBad, n, k, u);
      CountOne(c.p, n, k, u);
      CountOne(c.r, n, k, u);
    }
  }

  lemma CountOne(q: real, n: nat, k: nat, u: real)
    requires n > 0 && k > 0 && u == k as real / n as real
    ensures CountBelow(q, n, k) == CountBelow(q, n, k - 1) + if u < q then 1 else 0
  {
    Threshold(q, u, k as real, n as real);
  }

  ghost predicate AllStarted(ts: seq<seq<real>>) {
    forall i :: 0 <= i < |ts| ==> ts[i] != []
  }

  lemma {:induction false} CountExtendAll(c: Chain, ts: seq<seq<real>>, n: nat)
    requires n > 0 && AllStarted(ts)
    ensures |ExtendAll(ts, n)| == |ts| * n
    ensures BadCount(c, ExtendAll(ts, n)) ==
            (|ts| - BadCount(c, ts)) * CountBelow(c.p, n, n) + BadCount(c, ts) * (n - CountBelow(c.r, n, n))
  {
    if ts != [] {
      var rest := ts[1..];
      CountExtendAll(c, rest, n);
      CountExtensions(c, ts[0], n, n);
      BadCountConcat(c, Extensions(ts[0], n, n), ExtendAll(rest, n));
      AddOne(|rest|, BadCount(c, rest), CountBelow(c.p, n, n), n - CountBelow(c.r, n, n), n);
    }
  }

  lemma AddOne(l: int, b: int, p: int, q: int, n: int)
    ensures (l + 1) * n == l * n + n
    ensures (l + 1 - b) * p + b * q == (l - b) * p + b * q + p
    ensures (l + 1 - (b + 1)) * p + (b + 1) * q == (l - b) * p + b * q + q
  {
  }

  lemma {:induction false} ExtensionsStarted(t: seq<real>, n: nat, k: nat)
    requires n > 0
    ensures AllStarted(Extensions(t, n, k))
    decreases k
  {
    if k > 0 { ExtensionsStarted(t, n, k - 1); }
  }

  lemma {:induction false} ExtendAllStarted(ts: seq<seq<real>>, n: nat)
    requires n > 0
    ensures AllStarted(ExtendAll(ts, n))
  {
    if ts != [] {
      ExtensionsStarted(ts[0], n, n);
      ExtendAllStarted(ts[1..], n);
    }
  }

  // ---- the share of BAD ----

  /** `part` is the share `share` of `whole`. */
  ghost predicate HasShare(whole: int, part: int, share: real) {
    share * whole as real == part as real
  }

  lemma ShareStep(all: int, bad: int, share: real, p: int, r: int, n: int, ps: real, rs: real, all': int, bad': int,
                  share': real)
    requires HasShare(all, bad, share) && HasShare(n, p, ps) && HasShare(n, r, rs)
    requires all' == all * n && bad' == (all - bad) * p + bad * (n - r)
    requires share' == Next(share, ps, rs)
    ensures HasShare(all', bad', share')
  {
    var a, b, m := all as real, bad as real, n as real;
    assert all' as real == a * m;
    assert bad' as real == (a - b) * p as real + b * (m - r as real);
    ShareAlgebra(a, b, m, share, ps, rs);
  }

  lemma ShareAlgebra(a: real, b: real, m: real, s: real, ps: real, rs: real)
    requires b == s * a
    ensures (a - b) * (ps * m) + b * (m - rs * m) == ((1.0 - s) * ps + s * (1.0 - rs)) * (a * m)
  {
    assert (a - b) * (ps * m) == (1.0 - s) * ps * (a * m);
    assert b * (m - rs * m) == s * (1.0 - rs) * (a * m);
  }

  function Grid(n: int, k: nat): int {
    if k == 0 then 1 else Grid(n, k - 1) * n
  }

  /** The number of BAD histories of m + 1 draws when p, r and b of the n draws are below each probability. */
  function BadOf(n: int, p: int, r: int, b: int, m: nat): int {
    if m == 0 then b
    else var was := BadOf(n, p, r, b, m - 1); (Grid(n, m) - was) * p + was * (n - r)
  }

  /** Exactly how many sequences of draws leave the chain in BAD. */
  lemma {:induction false} GridCounts(c: Chain, n: nat, m: nat)
    requires n > 0
    ensures AllStarted(AllDraws(n, m + 1)) && |AllDraws(n, m + 1)| == Grid(n, m + 1)
    ensures BadCount(c, AllDraws(n, m + 1)) ==
            BadOf(n, CountBelow(c.p, n, n), CountBelow(c.r, n, n), CountBelow(c.piBad, n, n), m)
  {
    ExtendAllStarted(AllDraws(n, m), n);
    if m == 0 {
      FirstDraws(c, n);
      assert Grid(n, 1) == Grid(n, 0) * n == n;
    } else {
      GridCounts(c, n, m - 1);
      CountExtendAll(c, AllDraws(n, m), n);
    }
  }

  /** The share of those follows the recursion of the chain, with the shares of draws below each probability. */
  lemma {:induction false} GridShares(n: int, p: int, r: int, b: int, ps: real, rs: real, bs: real, m: nat)
    requires HasShare(n, p, ps) && HasShare(n, r, rs) && HasShare(n, b, bs)
    ensures HasShare(Grid(n, m + 1), BadOf(n, p, r, b, m), Spread(ps, rs, bs, m))
  {
    if m == 0 {
      assert Grid(n, 1) == Grid(n, 0) * n == n;
    } else {
      GridShares(n, p, r, b, ps, rs, bs, m - 1);
      ShareStep(Grid(n, m), BadOf(n, p, r, b, m - 1), Spread(ps, rs, bs, m - 1), p, r, n, ps, rs,
                Grid(n, m + 1), BadOf(n, p, r, b, m), Spread(ps, rs, bs, m));
    }
  }

  lemma FirstDraws(c: Chain, n: nat)
    requires n > 0
    ensures var ts := AllDraws(n, 1); |ts| == n && BadCount(c, ts) == CountBelow(c.piBad, n, n)
  {
    assert AllDraws(n, 0) == [[]] && AllDraws(n, 0)[1..] == [];
    assert AllDraws(n, 1) == ExtendAll([[]], n) == Extensions([], n, n) + [];
    CountExtensions(c, [], n, n);
    assert Extensions([], n, n) + [] == Extensions([], n, n);
  }

  // ---- how far the grid is off ----

  lemma {:induction false} CountUpTo(q: real, n: nat, k: nat, x: real)
    requires x == q * n as real
    ensures (k as real) < x ==> CountBelow(q, n, k) == k
    ensures 0.0 <= x <= k as real ==> x - 1.0 <= CountBelow(q, n, k) as real <= x
    ensures x < 0.0 ==> CountBelow(q, n, k) == 0
    decreases k
  {
    if k > 0 {
      CountUpTo(q, n, k - 1, x);
    }
  }

  /** A grid of n draws meets every probability to within 1/n, and never exceeds it. */
  lemma GridIsClose(q: real, n: nat, e: real) returns (share: real)
    requires n > 0 && e * n as real == 1.0
    ensures HasShare(n, CountBelow(q, n, n), share) && -e <= share - Chance(q) <= e && 0.0 <= share <= 1.0
  {
    var m, count := n as real, CountBelow(q, n, n) as real;
    share := Divided(count, m);
    CountUpTo(q, n, n, q * m);
    CloseCore(q, m, q * m, Chance(q), count, share, e);
  }

  lemma Divided(x: real, y: real) returns (q: real)
    requires y > 0.0
    ensures q * y == x
  {
    q := x / y;
  }

  lemma CloseCore(q: real, m: real, x: real, ch: real, count: real, share: real, e: real)
    requires m > 0.0 && x == q * m && ch == Chance(q) && share * m == count && e * m == 1.0
    requires 0.0 <= count <= m && (m < x ==> count == m) && (0.0 <= x <= m ==> x - 1.0 <= count <= x)
    requires x < 0.0 ==> count == 0.0
    ensures -e <= share - ch <= e && 0.0 <= share <= 1.0
  {
    Scaled(0.0, q, m, 0.0, x);
    Scaled(q, 1.0, m, x, m);
    Scaled(0.0, share, m, 0.0, count);
    Scaled(share, 1.0, m, count, m);
    Scaled(0.0, e, m, 0.0, 1.0);
    Scaled(share, q, m, count, x);
    Scaled(q - e, share, m, x - 1.0, count);
    Scaled(share, 0.0, m, count, 0.0);
    Scaled(1.0, share, m, m, count);
  }

  lemma {:induction false} SpreadIsShare(p: real, r: real, bad: real, frames: nat)
    requires 0.0 <= p <= 1.0 && 0.0 <= r <= 1.0 && 0.0 <= bad <= 1.0
    ensures 0.0 <= Spread(p, r, bad, frames) <= 1.0
  {
    if frames == 0 {
    } else {
      SpreadIsShare(p, r, bad, frames - 1);
      Mixture(Spread(p, r, bad, frames - 1), p, r);
    }
  }

  lemma Mixture(b: real, p: real, r: real)
    requires 0.0 <= b <= 1.0 && 0.0 <= p <= 1.0 && 0.0 <= r <= 1.0
    ensures 0.0 <= Next(b, p, r) <= 1.0
  {
    var u, v := (1.0 - b) * p, b * (1.0 - r);
    assert 0.0 <= u <= 1.0 - b by { PartOf(1.0 - b, p, u); }
    assert 0.0 <= v <= b by { PartOf(b, 1.0 - r, v); }
  }

  lemma PartOf(a: real, b: real, ab: real)
    requires a >= 0.0 && 0.0 <= b <= 1.0 && ab == a * b
    ensures 0.0 <= ab <= a
  {
    Positive(a, b);
    Positive(a, 1.0 - b);
    assert a * (1.0 - b) == a - a * b;
  }

  lemma Positive(a: real, b: real)
    requires a >= 0.0 && b >= 0.0
    ensures a * b >= 0.0
  {
  }

  lemma WithinProduct(a: real, b: real, x: real, y: real, ab: real, xy: real)
    requires -x <= a <= x && -y <= b <= y && ab == a * b && xy == x * y
    ensures -xy <= ab <= xy
  {
    Positive(x - a, y - b);
    Positive(x + a, y + b);
    Positive(x - a, y + b);
    Positive(x + a, y - b);
    assert (x - a) * (y - b) == xy - x * b - a * y + ab;
    assert (x + a) * (y + b) == xy + x * b + a * y + ab;
    assert (x - a) * (y + b) == xy + x * b - a * y - ab;
    assert (x + a) * (y - b) == xy - x * b + a * y - ab;
  }

  lemma ErrorParts(b: real, b': real, p: real, p': real, r: real, r': real, f: real, f': real)
    requires f == Next(b, p, r) && f' == Next(b', p', r')
    ensures f' - f == (b' - b) * (1.0 - p - r) + (1.0 - b') * (p' - p) - b' * (r' - r)
  {
    assert f == p - b * p + b - b * r;
    assert f' == p' - b' * p' + b' - b' * r';
    assert (b' - b) * (1.0 - p - r) == b' - b - b' * p + b * p - b' * r + b * r;
    assert (1.0 - b') * (p' - p) == p' - p - b' * p' + b' * p;
    assert b' * (r' - r) == b' * r' - b' * r;
  }

  /** One frame adds at most the error of one probability. */
  lemma ErrorStep(b: real, b': real, p: real, p': real, r: real, r': real, e: real, d: real, f: real, f': real)
    requires 0.0 <= b' <= 1.0 && 0.0 <= p <= 1.0 && 0.0 <= r <= 1.0
    requires -e <= p' - p <= e && -e <= r' - r <= e && -d <= b' - b <= d
    requires f == Next(b, p, r) && f' == Next(b', p', r')
    ensures -(d + e) <= f' - f <= d + e
  {
    var u, v, w := (b' - b) * (1.0 - p - r), (1.0 - b') * (p' - p), b' * (r' - r);
    var s, t := (1.0 - b') * e, b' * e;
    assert f' - f == u + v - w by { ErrorParts(b, b', p, p', r, r', f, f'); }
    assert -d <= u <= d by { WithinProduct(b' - b, 1.0 - p - r, d, 1.0, u, d); }
    assert -s <= v <= s by { WithinProduct(1.0 - b', p' - p, 1.0 - b', e, v, s); }
    assert -t <= w <= t by { WithinProduct(b', r' - r, b', e, w, t); }
    assert s + t == e;
  }

  lemma {:induction false} ErrorGrows(p: real, p': real, r: real, r': real, b: real, b': real, e: real, m: nat,
                                      d: real, f: real, f': real)
    requires 0.0 <= p <= 1.0 && 0.0 <= r <= 1.0
    requires 0.0 <= p' <= 1.0 && 0.0 <= r' <= 1.0 && 0.0 <= b' <= 1.0
    requires -e <= p' - p <= e && -e <= r' - r <= e && -e <= b' - b <= e
    requires d == Sum(e, m + 1) && f == Spread(p, r, b, m) && f' == Spread(p', r', b', m)
    ensures -d <= f' - f <= d
    decreases m
  {
    if m > 0 {
      var was, was' := Spread(p, r, b, m - 1), Spread(p', r', b', m - 1);
      ErrorGrows(p, p', r, r', b, b', e, m - 1, Sum(e, m), was, was');
      SpreadIsShare(p', r', b', m - 1);
      ErrorStep(was, was', p, p', r, r', e, Sum(e, m), f, f');
    }
  }

  /** `e` added up k times. */
  function Sum(e: real, k: nat): real {
    if k == 0 then 0.0 else Sum(e, k - 1) + e
  }

  lemma {:induction false} SumIsProduct(e: real, k: nat)
    ensures Sum(e, k) == e * k as real
  {
    if k > 0 {
      var j := (k - 1) as real;
      SumIsProduct(e, k - 1);
      assert e * (j + 1.0) == e * j + e;
    }
  }

  ghost predicate Near(x: real, y: real, d: real) {
    -d <= x - y <= d
  }

  ghost predicate HasShareNear(whole: int, part: int, share: real, d: real) {
    exists s :: Near(s, share, d) && HasShare(whole, part, s)
  }

  lemma ShareNear(c: Chain, n: nat, m: nat, e: real)
    requires n > 0 && e * n as real == 1.0
    ensures HasShareNear(|AllDraws(n, m + 1)|, BadCount(c, AllDraws(n, m + 1)), After(c, Chance(c.piBad), m),
                         Sum(e, m + 1))
  {
    var ps := GridIsClose(c.p, n, e);
    var rs := GridIsClose(c.r, n, e);
    var bs := GridIsClose(c.piBad, n, e);
    GridCounts(c, n, m);
    GridShares(n, CountBelow(c.p, n, n), CountBelow(c.r, n, n), CountBelow(c.piBad, n, n), ps, rs, bs, m);
    var share, exact := Spread(ps, rs, bs, m), After(c, Chance(c.piBad), m);
    ErrorGrows(Chance(c.p), ps, Chance(c.r), rs, Chance(c.piBad), bs, e, m, Sum(e, m + 1), exact, share);
    assert Near(share, exact, Sum(e, m + 1));
  }

  /**
   Of all sequences of m + 1 equally likely draws, the share that leaves the chain in BAD is its BAD probability
   after m frames, up to (m + 1) / n, for every n: so exactly in the limit. The generator's grid has n = 2^32 - 1.
   */
  lemma ShareOfBad(c: Chain, n: nat, m: nat)
    requires n > 0
    ensures HasShareNear(|AllDraws(n, m + 1)|, BadCount(c, AllDraws(n, m + 1)), After(c, Chance(c.piBad), m),
                         (m + 1) as real / n as real)
  {
    var e := 1.0 / n as real;
    Cancels(1.0, n as real);
    ShareNear(c, n, m, e);
    SumIsProduct(e, m + 1);
    Times(m + 1, n, e);
  }

  lemma Times(k: nat, n: nat, e: real)
    requires n > 0 && e == 1.0 / n as real
    ensures e * k as real == k as real / n as real
  {
  }
}
