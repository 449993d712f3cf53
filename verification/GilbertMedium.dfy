/**
 The radio medium built on the chain: one chain per directed link, started lazily, all fed from one xorshift
 generator, after a warm-up in which every frame is delivered and nothing is drawn.
 */
module GilbertMedium {
  import opened GilbertDraws
  import opened GilbertElliott

  const MAX_NODES := 64

  // ---- the generator ----

  function Shift(x: bv32): bv32 {
    Left5(Right17(Left13(x)))
  }

  function Left13(x: bv32): bv32 {
    x ^ (x << 13)
  }

  function Right17(x: bv32): bv32 {
    x ^ (x >> 17)
  }

  function Left5(x: bv32): bv32 {
    x ^ (x << 5)
  }

  lemma ShiftIs(x: bv32, a: bv32, b: bv32, c: bv32)
    requires a == x ^ (x << 13) && b == a ^ (a >> 17) && c == b ^ (b << 5)
    ensures c == Shift(x)
  {
    Left13Is(x, a);
    Right17Is(a, b);
    Left5Is(b, c);
  }

  lemma Left13Is(x: bv32, a: bv32)
    requires a == x ^ (x << 13)
    ensures a == Left13(x)
  {
  }

  lemma Right17Is(x: bv32, a: bv32)
    requires a == x ^ (x >> 17)
    ensures a == Right17(x)
  {
  }

  lemma Left5Is(x: bv32, a: bv32)
    requires a == x ^ (x << 5)
    ensures a == Left5(x)
  {
  }

  method XorShift(state: bv32) returns (x: bv32)
    ensures x == Shift(state)
  {
    x := state;
    x := x ^ (x << 13);
    ghost var a := x;
    x := x ^ (x >> 17);
    ghost var b := x;
    x := x ^ (x << 5);
    ShiftIs(state, a, b, x);
  }

  /** The state never becomes zero, where the generator would be stuck. */
  lemma ShiftNotZero(x: bv32)
    requires x != 0
    ensures Shift(x) != 0
  {
    var a := Left13(x);
    var b := Right17(a);
    assert a != 0;
    assert b != 0;
  }

  function Uniform(x: bv32): real {
    x as int as real / 4294967295.0
  }

  /** A draw lies in (0, 1], and it is 1 for exactly one state. */
  lemma UniformRange(x: bv32)
    requires x != 0
    ensures 0.0 < Uniform(x) <= 1.0
    ensures Uniform(x) < 1.0 <==> x != 0xFFFF_FFFF
  {
    var n := x as int;
    assert 0 < n <= 4294967295;
    assert x != 0xFFFF_FFFF <==> n != 4294967295;
  }

  /** Different states lead to different states, so over a full period every state is drawn equally often. */
  lemma ShiftInjective(x: bv32, y: bv32)
    requires Shift(x) == Shift(y)
    ensures x == y
  {
    Left5Injective(Right17(Left13(x)), Right17(Left13(y)));
    Right17Injective(Left13(x), Left13(y));
    Left13Injective(x, y);
  }

  lemma Left13Injective(x: bv32, y: bv32)
    requires Left13(x) == Left13(y)
    ensures x == y
  {
  }

  lemma Right17Injective(x: bv32, y: bv32)
    requires Right17(x) == Right17(y)
    ensures x == y
  {
    TopBits(x, y);
    LowBits(x, y);
    SameBits(x, y);
  }

  /** The top bits pass through, so they give away what was added to the others. */
  lemma TopBits(x: bv32, y: bv32)
    requires Right17(x) == Right17(y)
    ensures x >> 17 == y >> 17
  {
  }

  lemma LowBits(x: bv32, y: bv32)
    requires Right17(x) == Right17(y)
    ensures x ^ (x >> 17) == y ^ (y >> 17)
  {
  }

  lemma SameBits(x: bv32, y: bv32)
    requires x >> 17 == y >> 17 && x ^ (x >> 17) == y ^ (y >> 17)
    ensures x == y
  {
  }

  lemma Left5Injective(x: bv32, y: bv32)
    requires Left5(x) == Left5(y)
    ensures x == y
  {
  }

  const BEFORE_ONE: bv32 := 0x5E6C_FCE7

  lemma BeforeOne()
    ensures Shift(BEFORE_ONE) == 0xFFFF_FFFF
  {
    ShiftIs(BEFORE_ONE, 0xC1F0_1CE7, 0xC1F0_7C1F, 0xFFFF_FFFF);
  }

  /** The generator yields 1, outside the promised [0, 1), from exactly one state: the seed 1584200935, say. */
  lemma DrawsOneIff(x: bv32)
    requires x != 0
    ensures Uniform(Shift(x)) < 1.0 <==> x != BEFORE_ONE
  {
    BeforeOne();
    ShiftNotZero(x);
    UniformRange(Shift(x));
    if Shift(x) == 0xFFFF_FFFF { ShiftInjective(x, BEFORE_ONE); }
  }

  /** On such a draw a chain of burst length 1 stays BAD, although it should leave BAD after one frame. */
  lemma StaysBad(avgDrop: real, u: real)
    ensures var c := Calibrated(avgDrop, 1.0); Advance(Bad, c, u) == Bad <==> u >= 1.0
  {
    assert Calibrated(avgDrop, 1.0).r == 1.0;
  }

  // ---- one frame ----

  datatype Link = Link(sender: int, receiver: int)

  datatype World = World(rng: bv32, frames: nat, links: map<Link, State>)

  /** What a frame does: the medium after it, the chance of reception, the draws, and the state it met, if any. */
  datatype Outcome = Outcome(world: World, chance: real, draws: seq<real>, met: seq<State>)

  predicate InRange(l: Link) {
    0 <= l.sender < MAX_NODES && 0 <= l.receiver < MAX_NODES
  }

  function ChanceIn(s: State): real {
    if s == Good then 1.0 else 0.0
  }

  function Frame(c: Chain, warmup: nat, w: World, l: Link): Outcome {
    if !InRange(l) then Outcome(w, 1.0, [], [])
    else if w.frames < warmup then Outcome(w.(frames := w.frames + 1), 1.0, [], [])
    else if l in w.links then
      var x := Shift(w.rng);
      var s := w.links[l];
      Outcome(World(x, w.frames + 1, w.links[l := Advance(s, c, Uniform(x))]), ChanceIn(s), [Uniform(x)], [s])
    else
      var x := Shift(w.rng);
      var y := Shift(x);
      var s := Initial(c.piBad, Uniform(x));
      Outcome(World(y, w.frames + 1, w.links[l := Advance(s, c, Uniform(y))]), ChanceIn(s),
              [Uniform(x), Uniform(y)], [s])
  }

  // ---- runs ----

  function Run(c: Chain, warmup: nat, w: World, calls: seq<Link>): World
    decreases calls
  {
    if calls == [] then w else Run(c, warmup, Frame(c, warmup, w, calls[0]).world, calls[1..])
  }

  /** The uniforms drawn for one link during a run. */
  function DrawsFor(c: Chain, warmup: nat, w: World, calls: seq<Link>, l: Link): seq<real>
    decreases calls
  {
    if calls == [] then []
    else
      var f := Frame(c, warmup, w, calls[0]);
      (if calls[0] == l then f.draws else []) + DrawsFor(c, warmup, f.world, calls[1..], l)
  }

  /** The states one link was met in during a run. */
  function MetFor(c: Chain, warmup: nat, w: World, calls: seq<Link>, l: Link): seq<State>
    decreases calls
  {
    if calls == [] then []
    else
      var f := Frame(c, warmup, w, calls[0]);
      (if calls[0] == l then f.met else []) + MetFor(c, warmup, f.world, calls[1..], l)
  }

  /** `draws` is all that was drawn for `l` so far, and the medium holds the state they lead to. */
  ghost predicate Follows(c: Chain, w: World, l: Link, draws: seq<real>) {
    (l in w.links <==> draws != []) && (l in w.links ==> w.links[l] == StateAfter(c, draws))
  }

  lemma FrameFollows(c: Chain, warmup: nat, w: World, call: Link, l: Link, draws: seq<real>)
    requires Follows(c, w, l, draws)
    ensures var f := Frame(c, warmup, w, call);
            var more := if call == l then f.draws else [];
            && Follows(c, f.world, l, draws + more)
            && History(c, draws + more) == History(c, draws) + if call == l then f.met else []
  {
    var f := Frame(c, warmup, w, call);
    if call != l || f.draws == [] {
      assert draws + [] == draws && History(c, draws) + [] == History(c, draws);
    } else if l in w.links {
      OneMore(c, draws, f.draws[0]);
    } else {
      var first := [f.draws[0]];
      assert draws + f.draws == first + [f.draws[1]];
      OneMore(c, first, f.draws[1]);
      assert History(c, draws) == [] && History(c, first) == [];
    }
  }

  lemma {:induction false} RunFollows(c: Chain, warmup: nat, w: World, calls: seq<Link>, l: Link, draws: seq<real>)
    requires Follows(c, w, l, draws)
    ensures var more := DrawsFor(c, warmup, w, calls, l);
            && Follows(c, Run(c, warmup, w, calls), l, draws + more)
            && History(c, draws + more) == History(c, draws) + MetFor(c, warmup, w, calls, l)
    decreases calls
  {
    if calls == [] {
      assert draws + [] == draws && History(c, draws) + [] == History(c, draws);
    } else {
      var v, now, met := FirstFrame(c, warmup, w, calls, l);
      var later, rest := DrawsFor(c, warmup, v, calls[1..], l), MetFor(c, warmup, v, calls[1..], l);
      FrameFollows(c, warmup, w, calls[0], l, draws);
      RunFollows(c, warmup, v, calls[1..], l, draws + now);
      Glue(draws, now, later);
      Glue(History(c, draws), met, rest);
    }
  }

  lemma FirstFrame(c: Chain, warmup: nat, w: World, calls: seq<Link>, l: Link)
      returns (v: World, now: seq<real>, met: seq<State>)
    requires calls != []
    ensures v == Frame(c, warmup, w, calls[0]).world && Run(c, warmup, w, calls) == Run(c, warmup, v, calls[1..])
    ensures now == if calls[0] == l then Frame(c, warmup, w, calls[0]).draws else []
    ensures met == if calls[0] == l then Frame(c, warmup, w, calls[0]).met else []
    ensures DrawsFor(c, warmup, w, calls, l) == now + DrawsFor(c, warmup, v, calls[1..], l)
    ensures MetFor(c, warmup, w, calls, l) == met + MetFor(c, warmup, v, calls[1..], l)
  {
    var f := Frame(c, warmup, w, calls[0]);
    v := f.world;
    now := if calls[0] == l then f.draws else [];
    met := if calls[0] == l then f.met else [];
  }

  lemma Glue<T>(a: seq<T>, b: seq<T>, c: seq<T>)
    ensures a + b + c == a + (b + c)
  {
  }

  /**
   However the traffic of many links is interleaved, what one link sees is its chain run on its own, on the
   uniforms drawn for it.
   */
  lemma LinksAreIndependent(c: Chain, warmup: nat, w: World, calls: seq<Link>, l: Link)
    requires l !in w.links
    ensures MetFor(c, warmup, w, calls, l) == History(c, DrawsFor(c, warmup, w, calls, l))
  {
    RunFollows(c, warmup, w, calls, l, []);
    var draws := DrawsFor(c, warmup, w, calls, l);
    assert [] + draws == draws;
    assert History(c, []) + MetFor(c, warmup, w, calls, l) == MetFor(c, warmup, w, calls, l);
  }

  // ---- where the draws come from ----

  function Draws(c: Chain, warmup: nat, w: World, calls: seq<Link>): seq<real>
    decreases calls
  {
    if calls == [] then []
    else var f := Frame(c, warmup, w, calls[0]); f.draws + Draws(c, warmup, f.world, calls[1..])
  }

  /** The generator's output from a state on. */
  function Stream(x: bv32, n: nat): seq<real>
    decreases n, x
  {
    if n == 0 then [] else [Uniform(Shift(x))] + Stream(Shift(x), n - 1)
  }

  function Shifted(x: bv32, n: nat): bv32
    decreases n, x
  {
    if n == 0 then x else Shifted(Shift(x), n - 1)
  }

  lemma {:induction false} StreamConcat(x: bv32, m: nat, n: nat)
    ensures Stream(x, m + n) == Stream(x, m) + Stream(Shifted(x, m), n)
    ensures Shifted(x, m + n) == Shifted(Shifted(x, m), n)
    decreases m
  {
    if m == 0 {
      assert [] + Stream(x, n) == Stream(x, n);
    } else {
      StreamConcat(Shift(x), m - 1, n);
    }
  }

  lemma FrameDraws(c: Chain, warmup: nat, w: World, l: Link)
    ensures var f := Frame(c, warmup, w, l);
            f.draws == Stream(w.rng, |f.draws|) && f.world.rng == Shifted(w.rng, |f.draws|)
  {
    var x := w.rng;
    assert Stream(Shift(x), 0) == [] && Stream(x, 1) == [Uniform(Shift(x))] + [];
    assert Stream(x, 2) == [Uniform(Shift(x))] + Stream(Shift(x), 1);
    assert Stream(Shift(x), 1) == [Uniform(Shift(Shift(x)))] + Stream(Shift(Shift(x)), 0);
    assert Shifted(x, 1) == Shifted(Shift(x), 0) == Shift(x);
    assert Shifted(x, 2) == Shifted(Shift(x), 1) == Shifted(Shift(Shift(x)), 0);
  }

  /** Over a run every output of the generator goes to exactly one draw, in order; none is skipped or shared. */
  lemma {:induction false} DrawsAreStream(c: Chain, warmup: nat, w: World, calls: seq<Link>)
    ensures var draws := Draws(c, warmup, w, calls);
            && draws == Stream(w.rng, |draws|)
            && Run(c, warmup, w, calls).rng == Shifted(w.rng, |draws|)
    decreases calls
  {
    if calls != [] {
      var f := Frame(c, warmup, w, calls[0]);
      FrameDraws(c, warmup, w, calls[0]);
      DrawsAreStream(c, warmup, f.world, calls[1..]);
      StreamConcat(w.rng, |f.draws|, |Draws(c, warmup, f.world, calls[1..])|);
    }
  }

  /** The generator stays clear of zero over any run. */
  lemma {:induction false} RunNotZero(c: Chain, warmup: nat, w: World, calls: seq<Link>)
    requires w.rng != 0
    ensures Run(c, warmup, w, calls).rng != 0
    decreases calls
  {
    if calls != [] {
      ShiftNotZero(w.rng);
      ShiftNotZero(Shift(w.rng));
      RunNotZero(c, warmup, Frame(c, warmup, w, calls[0]).world, calls[1..]);
    }
  }

  /** The chances of reception of a run's frames. */
  function Chances(c: Chain, warmup: nat, w: World, calls: seq<Link>): (r: seq<real>)
    ensures |r| == |calls|
    decreases calls
  {
    if calls == [] then []
    else var f := Frame(c, warmup, w, calls[0]); [f.chance] + Chances(c, warmup, f.world, calls[1..])
  }

  /** While warming up every frame is delivered, nothing is drawn and no chain starts. */
  lemma {:induction false} WarmupIsSilent(c: Chain, warmup: nat, w: World, calls: seq<Link>)
    requires w.frames + |calls| <= warmup
    ensures var v := Run(c, warmup, w, calls); v.rng == w.rng && v.links == w.links
    ensures Draws(c, warmup, w, calls) == []
    ensures forall i :: 0 <= i < |calls| ==> Chances(c, warmup, w, calls)[i] == 1.0
    decreases calls
  {
    if calls != [] {
      WarmupIsSilent(c, warmup, Frame(c, warmup, w, calls[0]).world, calls[1..]);
    }
  }

  // ---- what happens to the frames of a link ----

  /** The chances of reception of one link's frames during a run. */
  function ChancesFor(c: Chain, warmup: nat, w: World, calls: seq<Link>, l: Link): seq<real>
    decreases calls
  {
    if calls == [] then []
    else
      var f := Frame(c, warmup, w, calls[0]);
      (if calls[0] == l then [f.chance] else []) + ChancesFor(c, warmup, f.world, calls[1..], l)
  }

  /** How many frames there are on a link. */
  function Count(calls: seq<Link>, l: Link): nat {
    if calls == [] then 0 else (if calls[0] == l then 1 else 0) + Count(calls[1..], l)
  }

  /** How many of them are among the first `left` frames between nodes the medium knows. */
  function Warm(calls: seq<Link>, left: int, l: Link): nat {
    if calls == [] || left <= 0 then 0
    else (if calls[0] == l then 1 else 0) + Warm(calls[1..], if InRange(calls[0]) then left - 1 else left, l)
  }

  /** Delivered during warm-up, and from then on in GOOD and only there. */
  ghost predicate Received(chances: seq<real>, warm: nat, met: seq<State>) {
    && |chances| == warm + |met|
    && (forall i :: 0 <= i < warm ==> chances[i] == 1.0)
    && (forall i :: 0 <= i < |met| ==> chances[warm + i] == if met[i].Good? then 1.0 else 0.0)
  }

  lemma ReceivedNext(mine: bool, chance: real, chances: seq<real>, warm: nat, first: seq<State>, met: seq<State>)
    requires Received(chances, warm, met)
    requires mine ==> if first == [] then chance == 1.0
                      else |first| == 1 && warm == 0 && chance == if first[0].Good? then 1.0 else 0.0
    ensures Received((if mine then [chance] else []) + chances,
                     if !mine then warm else if first == [] then warm + 1 else 0, (if mine then first else []) + met)
  {
    if !mine { assert [] + chances == chances && [] + met == met; }
  }

  /** A frame that counts meets nothing while warming up, and then one state, which decides. */
  lemma FrameMeets(c: Chain, warmup: nat, w: World, l: Link)
    requires 0 <= l.sender < 64 && 0 <= l.receiver < 64
    ensures var f := Frame(c, warmup, w, l);
            && f.world.frames == w.frames + 1
            && (w.frames < warmup ==> f.met == [] && f.chance == 1.0)
            && (w.frames >= warmup ==> |f.met| == 1 && f.chance == if f.met[0].Good? then 1.0 else 0.0)
  {
  }

  lemma FirstChance(c: Chain, warmup: nat, w: World, calls: seq<Link>, l: Link)
      returns (v: World, chance: real, met: seq<State>)
    requires calls != [] && 0 <= l.sender < 64 && 0 <= l.receiver < 64
    ensures v.frames == w.frames + if InRange(calls[0]) then 1 else 0
    ensures calls[0] == l && w.frames < warmup ==> met == [] && chance == 1.0
    ensures calls[0] == l && w.frames >= warmup ==> |met| == 1 && chance == if met[0].Good? then 1.0 else 0.0
    ensures ChancesFor(c, warmup, w, calls, l) ==
            (if calls[0] == l then [chance] else []) + ChancesFor(c, warmup, v, calls[1..], l)
    ensures MetFor(c, warmup, w, calls, l) ==
            (if calls[0] == l then met else []) + MetFor(c, warmup, v, calls[1..], l)
  {
    var f := Frame(c, warmup, w, calls[0]);
    if InRange(calls[0]) { FrameMeets(c, warmup, w, calls[0]); }
    v, chance, met := f.world, f.chance, f.met;
  }

  lemma {:induction false} ChancesMet(c: Chain, warmup: nat, w: World, calls: seq<Link>, l: Link)
    requires 0 <= l.sender < 64 && 0 <= l.receiver < 64
    ensures Received(ChancesFor(c, warmup, w, calls, l), Warm(calls, warmup - w.frames, l),
                     MetFor(c, warmup, w, calls, l))
    decreases calls
  {
    if calls != [] {
      var v, chance, first := FirstChance(c, warmup, w, calls, l);
      var rest := calls[1..];
      ChancesMet(c, warmup, v, rest, l);
      var chances, met := ChancesFor(c, warmup, v, rest, l), MetFor(c, warmup, v, rest, l);
      ReceivedNext(calls[0] == l, chance, chances, Warm(rest, warmup - v.frames, l), first, met);
    }
  }

  lemma {:induction false} OneChanceEach(c: Chain, warmup: nat, w: World, calls: seq<Link>, l: Link)
    ensures |ChancesFor(c, warmup, w, calls, l)| == Count(calls, l)
    decreases calls
  {
    if calls != [] { OneChanceEach(c, warmup, Frame(c, warmup, w, calls[0]).world, calls[1..], l); }
  }

  /**
   Over every run each frame of a link, in order, is delivered while warming up; afterwards each meets one state of the
   link's chain, run alone on the uniforms drawn for it, and is delivered in GOOD and lost in BAD.
   */
  lemma ChainDecides(c: Chain, warmup: nat, w: World, calls: seq<Link>, l: Link)
    requires 0 <= l.sender < 64 && 0 <= l.receiver < 64 && l !in w.links
    ensures var chances, met := ChancesFor(c, warmup, w, calls, l), History(c, DrawsFor(c, warmup, w, calls, l));
            && |chances| == Count(calls, l)
            && Received(chances, Warm(calls, warmup - w.frames, l), met)
  {
    ChancesMet(c, warmup, w, calls, l);
    OneChanceEach(c, warmup, w, calls, l);
    LinksAreIndependent(c, warmup, w, calls, l);
  }

  ghost predicate Delivered(chances: seq<real>) {
    forall i :: 0 <= i < |chances| ==> chances[i] == 1.0
  }

  /** Frames from or to nodes beyond the first 64 are delivered and leave no trace. */
  lemma {:induction false} OthersPass(c: Chain, warmup: nat, w: World, calls: seq<Link>, l: Link)
    requires l.sender < 0 || l.sender >= 64 || l.receiver < 0 || l.receiver >= 64
    ensures Delivered(ChancesFor(c, warmup, w, calls, l))
    ensures DrawsFor(c, warmup, w, calls, l) == []
    ensures Run(c, warmup, w, [l] + calls) == Run(c, warmup, w, calls)
    decreases calls
  {
    assert Frame(c, warmup, w, l).world == w && ([l] + calls)[1..] == calls;
    if calls != [] { OthersPass(c, warmup, Frame(c, warmup, w, calls[0]).world, calls[1..], l); }
  }

  ghost predicate AllGood(w: World) {
    w.rng != 0 && forall l :: l in w.links ==> w.links[l].Good?
  }

  /** Draws are positive, so a probability of zero is never met. */
  lemma DrawsPositive(x: bv32)
    requires x != 0
    ensures Shift(x) != 0 && Uniform(Shift(x)) > 0.0
  {
    ShiftNotZero(x);
    UniformRange(Shift(x));
  }

  lemma StartsGood(c: Chain, u: real, v: real)
    requires c.p <= 0.0 && c.piBad <= 0.0 && u > 0.0 && v > 0.0
    ensures Initial(c.piBad, u).Good? && Advance(Good, c, v).Good?
  {
  }

  lemma FrameDelivered(c: Chain, warmup: nat, w: World, l: Link)
    requires c.p <= 0.0 && c.piBad <= 0.0 && AllGood(w)
    ensures var f := Frame(c, warmup, w, l); f.chance == 1.0 && AllGood(f.world)
  {
    var x := Shift(w.rng);
    DrawsPositive(w.rng);
    DrawsPositive(x);
    StartsGood(c, Uniform(x), Uniform(x));
    StartsGood(c, Uniform(x), Uniform(Shift(x)));
    var f := Frame(c, warmup, w, l);
    assert f.world.rng != 0;
    assert forall k :: k in f.world.links ==> k == l || (k in w.links && f.world.links[k] == w.links[k]);
  }

  lemma {:induction false} AllDelivered(c: Chain, warmup: nat, w: World, calls: seq<Link>)
    requires c.p <= 0.0 && c.piBad <= 0.0 && AllGood(w)
    ensures Delivered(Chances(c, warmup, w, calls))
    decreases calls
  {
    if calls != [] {
      var f := Frame(c, warmup, w, calls[0]);
      FrameDelivered(c, warmup, w, calls[0]);
      AllDelivered(c, warmup, f.world, calls[1..]);
      assert Chances(c, warmup, w, calls) == [1.0] + Chances(c, warmup, f.world, calls[1..]);
    }
  }

  /** With nothing to drop no frame is ever lost. */
  lemma NothingLost(avgDrop: real, burstLen: real, warmup: nat, w: World, calls: seq<Link>)
    requires avgDrop <= 0.0 && AllGood(w)
    ensures Delivered(Chances(Calibrated(avgDrop, burstLen), warmup, w, calls))
  {
    AllDelivered(Calibrated(avgDrop, burstLen), warmup, w, calls);
  }

  // ---- the medium ----

  class Medium {
    const chain: Chain
    const warmup: nat
    var rng: bv32
    var frames: nat
    const state: array2<State>
    const started: array2<bool>
    /** The medium as a value, for specification. */
    ghost var world: World

    ghost predicate Valid()
      reads this, state, started
    {
      && state.Length0 == state.Length1 == started.Length0 == started.Length1 == MAX_NODES
      && world.rng == rng && world.frames == frames && rng != 0
      && (forall l :: l in world.links ==> InRange(l))
      && (forall i, j :: 0 <= i < MAX_NODES && 0 <= j < MAX_NODES ==> started[i, j] == (Link(i, j) in world.links))
      && (forall i, j :: 0 <= i < MAX_NODES && 0 <= j < MAX_NODES && Link(i, j) in world.links ==>
            state[i, j] == world.links[Link(i, j)])
    }

    constructor (avgDrop: real, burstLen: real, seed: bv32, warmupFrames: nat)
      ensures Valid() && chain == Calibrated(avgDrop, burstLen) && warmup == warmupFrames
      ensures world == World(if seed == 0 then 1 else seed, 0, map[]) && fresh(state) && fresh(started)
    {
      var c := Calibrate(avgDrop, burstLen);
      chain := c;
      warmup := warmupFrames;
      rng := if seed == 0 then 1 else seed;
      frames := 0;
      state := new State[MAX_NODES, MAX_NODES];
      started := new bool[MAX_NODES, MAX_NODES]((i, j) => false);
      world := World(if seed == 0 then 1 else seed, 0, map[]);
    }

    method Draw() returns (u: real)
      requires rng != 0
      modifies this`rng
      ensures rng == Shift(old(rng)) && rng != 0 && u == Uniform(rng) && 0.0 < u <= 1.0
    {
      rng := XorShift(rng);
      u := rng as int as real / 4294967295.0;
      ShiftNotZero(old(rng));
      UniformRange(rng);
    }

    method ReceptionProbability(sender: int, receiver: int) returns (chance: real)
      requires Valid()
      modifies this, state, started
      ensures Valid()
      ensures var f := Frame(chain, warmup, old(world), Link(sender, receiver)); world == f.world && chance == f.chance
    {
      var l := Link(sender, receiver);
      if sender < 0 || receiver < 0 || sender >= MAX_NODES || receiver >= MAX_NODES { return 1.0; }
      if frames < warmup {
        frames := frames + 1;
        world := world.(frames := frames);
        return 1.0;
      }
      frames := frames + 1;
      if !started[sender, receiver] {
        var u := Draw();
        state[sender, receiver] := Initial(chain.piBad, u);
        started[sender, receiver] := true;
      }
      var current := state[sender, receiver];
      var u := Draw();
      state[sender, receiver] := Advance(current, chain, u);
      world := World(rng, frames, world.links[l := Advance(current, chain, u)]);
      return if current == Good then 1.0 else 0.0;
    }
  }
}
