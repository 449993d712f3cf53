/**
 Whole runs of the event queue: what every reachable state satisfies, how far the nanosecond clock can
 fall behind real elapsed time, and how close to its deadline an event fires.
 */
module EventQueueRuns {
  import opened CpuTime
  import opened EventQueueSpec

  function Step<T(==)>(c: Cpu<T>, op: Op<T>): Cpu<T>
    requires QueueOk(c.queue)
  {
    match op
    case Do(a) => Act(c, a)
    case SetFrequency(freq) => ChangeFrequency(c, freq)
    case Advance(n) => c.(clock := c.clock.(cycles := c.clock.cycles + n))
    case Execute(script) => Exec(c, script).0
  }

  lemma StepKeeps<T>(c: Cpu<T>, op: Op<T>)
    requires QueueOk(c.queue)
    ensures QueueOk(Step(c, op).queue)
  {
    match op
    case Do(a) => ActKeeps(c, a);
    case SetFrequency(freq) =>
      if freq > 0 {
        FrequencyChangeSortsStably(c, freq);
      }
    case Advance(_) =>
    case Execute(script) => ExecEnds(c, script);
  }

  /** In every reachable state, whatever the callbacks did, the queue is sorted and free of duplicates. */
  function Run<T(==)>(c: Cpu<T>, ops: seq<Op<T>>): (c': Cpu<T>)
    requires QueueOk(c.queue)
    ensures QueueOk(c'.queue)
    decreases |ops|
  {
    if ops == [] then c else StepKeeps(c, ops[0]); Run(Step(c, ops[0]), ops[1..])
  }

  // ---- how far the clock falls behind ----

  function Period(freq: Hz): real
    requires freq > 0
  {
    NS as real / freq as real
  }

  /** What the nanosecond clock would read if it did not round since the last frequency change. */
  function ExactNow(k: Clock): real
    requires k.freq > 0
  {
    k.anchorNs as real + (k.cycles - k.anchorCycles) as real * Period(k.freq)
  }

  /** A clock that runs and has not been set back behind its anchor. */
  predicate Ticking(k: Clock) {
    k.freq > 0 && k.cycles >= k.anchorCycles
  }

  /** Real time that passes during one operation, and during a run, at the frequency of the moment. */
  function Passes<T>(k: Clock, op: Op<T>): real
    requires k.freq > 0
  {
    if op.Advance? then op.n as real * Period(k.freq) else 0.0
  }

  function Elapsed<T(==)>(c: Cpu<T>, ops: seq<Op<T>>): real
    requires QueueOk(c.queue) && Ticking(c.clock)
    decreases |ops|
  {
    if ops == [] then 0.0
    else
      StepKeeps(c, ops[0]);
      StepClock(c, ops[0]);
      Passes(c.clock, ops[0]) + Elapsed(Step(c, ops[0]), ops[1..])
  }

  function Rounding<T>(op: Op<T>): nat {
    if op.SetFrequency? && op.freq > 0 then 1 else 0
  }

  /** The number of frequency changes in a run. */
  function Changes<T>(ops: seq<Op<T>>): nat {
    if ops == [] then 0 else Rounding(ops[0]) + Changes(ops[1..])
  }

  /** What an operation does to the clock alone. */
  lemma StepClock<T>(c: Cpu<T>, op: Op<T>)
    requires QueueOk(c.queue)
    ensures var k, k' := c.clock, Step(c, op).clock;
      && (op.Do? ==> k' == k)
      && (op.SetFrequency? ==> k' == if op.freq == 0 then k else Reclock(k, op.freq))
      && (op.Advance? ==> k' == k.(cycles := k.cycles + op.n))
      && (op.Execute? ==> k' == k || k' == Sync(k))
    ensures Ticking(c.clock) ==> Ticking(Step(c, op).clock)
  {
    if op.Execute? {
      ExecEnds(c, op.script);
    }
  }

  lemma MulReal(a: int, b: int)
    ensures (a * b) as real == a as real * b as real
  {
  }

  lemma QuotientBelow(x: real, f: real, b: real)
    requires f > 0.0
    ensures x / f < b <==> x < b * f
  {
    var q := x / f;
    assert x == q * f;
    if q < b {
      assert (b - q) * f > 0.0;
    } else {
      assert (q - b) * f >= 0.0;
    }
  }

  /** A floor quotient as a bound on the real quotient. */
  lemma FloorReal(t: int, x: int, f: int)
    requires f > 0 && t * f <= x < (t + 1) * f
    ensures t as real <= x as real / f as real < t as real + 1.0
  {
    MulReal(t, f);
    MulReal(t + 1, f);
    QuotientBelow(x as real, f as real, t as real);
    QuotientBelow(x as real, f as real, (t + 1) as real);
    assert (t + 1) as real == t as real + 1.0;
  }

  lemma FloorClock(anchor: int, d: int, t: int, f: Hz)
    requires f > 0 && t * f <= d * NS < (t + 1) * f
    ensures (anchor + t) as real <= anchor as real + d as real * Period(f) < (anchor + t) as real + 1.0
  {
    FloorReal(t, d * NS, f);
    MulReal(d, NS);
    assert (d * NS) as real / f as real == d as real * Period(f);
  }

  /** A synced clock is at most one nanosecond behind the unrounded one. */
  lemma RoundsDown(k: Clock)
    requires Ticking(k)
    ensures Now(k) as real <= ExactNow(k) < Now(k) as real + 1.0
  {
    var d := k.cycles - k.anchorCycles;
    CyclesToNsFloor(d, k.freq);
    FloorClock(k.anchorNs, d, CyclesToNs(d, k.freq), k.freq);
  }

  /** `x` is equal to the unrounded clock, or ahead of it by less than `n` nanoseconds. */
  ghost predicate Ahead(k: Clock, x: real, n: nat)
    requires k.freq > 0
  {
    x == ExactNow(k) || ExactNow(k) < x < ExactNow(k) + n as real
  }

  lemma ReclockAhead(k: Clock, freq: Hz, x: real, n: nat)
    requires Ticking(k) && freq > 0 && Ahead(k, x, n)
    ensures Ahead(Reclock(k, freq), x, n + 1)
  {
    RoundsDown(k);
    assert ExactNow(Reclock(k, freq)) == Now(k) as real;
    assert (n + 1) as real == n as real + 1.0;
  }

  lemma AdvanceAhead(k: Clock, m: nat, x: real, n: nat)
    requires Ticking(k) && Ahead(k, x, n)
    ensures Ahead(k.(cycles := k.cycles + m), x + m as real * Period(k.freq), n)
  {
    var d := k.cycles - k.anchorCycles;
    assert (d + m) as real == d as real + m as real;
    Distribute(d as real, m as real, Period(k.freq));
  }

  lemma Distribute(a: real, b: real, p: real)
    ensures (a + b) * p == a * p + b * p
  {
  }

  lemma StepAhead<T>(c: Cpu<T>, op: Op<T>, x: real, n: nat)
    requires QueueOk(c.queue) && Ticking(c.clock) && Ahead(c.clock, x, n)
    ensures var k' := Step(c, op).clock; Ticking(k') && Ahead(k', x + Passes(c.clock, op), n + Rounding(op))
  {
    StepClock(c, op);
    ClockAhead(c.clock, Step(c, op).clock, op, x, n);
  }

  lemma ClockAhead<T>(k: Clock, k': Clock, op: Op<T>, x: real, n: nat)
    requires Ticking(k) && Ahead(k, x, n)
    requires op.Do? ==> k' == k
    requires op.SetFrequency? ==> k' == if op.freq == 0 then k else Reclock(k, op.freq)
    requires op.Advance? ==> k' == k.(cycles := k.cycles + op.n)
    requires op.Execute? ==> k' == k || k' == Sync(k)
    ensures Ticking(k') && Ahead(k', x + Passes(k, op), n + Rounding(op))
  {
    if op.SetFrequency? && op.freq > 0 {
      ReclockAhead(k, op.freq, x, n);
    } else if op.Advance? {
      AdvanceAhead(k, op.n, x, n);
    } else {
      assert ExactNow(k') == ExactNow(k) && x + 0.0 == x;
    }
  }

  lemma {:induction false} RunAhead<T>(c: Cpu<T>, ops: seq<Op<T>>, x: real, n: nat)
    requires QueueOk(c.queue) && Ticking(c.clock) && Ahead(c.clock, x, n)
    ensures var k' := Run(c, ops).clock; Ticking(k') && Ahead(k', x + Elapsed(c, ops), n + Changes(ops))
    decreases |ops|
  {
    if ops != [] {
      StepKeeps(c, ops[0]);
      StepAhead(c, ops[0], x, n);
      RunAhead(Step(c, ops[0]), ops[1..], x + Passes(c.clock, ops[0]), n + Rounding(ops[0]));
    }
  }

  lemma LaterIsLarger(a: int, b: int, freq: Hz)
    requires 0 <= a <= b && freq > 0
    ensures CyclesToNs(a, freq) <= CyclesToNs(b, freq)
  {
    var s, t := CyclesToNs(a, freq), CyclesToNs(b, freq);
    CyclesToNsFloor(a, freq);
    CyclesToNsFloor(b, freq);
    if t < s {
      MulMono(t + 1, s, freq);
      assert false;
    }
  }

  lemma StepForward<T>(c: Cpu<T>, op: Op<T>)
    requires QueueOk(c.queue) && Ticking(c.clock)
    ensures Now(Step(c, op).clock) >= Now(c.clock)
  {
    StepClock(c, op);
    var d := c.clock.cycles - c.clock.anchorCycles;
    if op.SetFrequency? && op.freq > 0 {
      assert CyclesToNs(0, op.freq) == 0;
    } else if op.Advance? {
      LaterIsLarger(d, d + op.n, c.clock.freq);
    }
  }

  lemma {:induction false} RunForward<T>(c: Cpu<T>, ops: seq<Op<T>>)
    requires QueueOk(c.queue) && Ticking(c.clock)
    ensures Now(Run(c, ops).clock) >= Now(c.clock)
    decreases |ops|
  {
    if ops != [] {
      StepKeeps(c, ops[0]);
      StepClock(c, ops[0]);
      StepForward(c, ops[0]);
      RunForward(Step(c, ops[0]), ops[1..]);
    }
  }

  /**
   Over any run with k frequency changes the synced clock never goes back, never runs ahead of the
   elapsed time, and falls less than k + 1 nanoseconds behind it.
   */
  lemma ClockLag<T>(c: Cpu<T>, ops: seq<Op<T>>)
    requires QueueOk(c.queue) && Ticking(c.clock)
    ensures var k' := Run(c, ops).clock; var exact := ExactNow(c.clock) + Elapsed(c, ops);
      Now(k') >= Now(c.clock) && Now(k') as real <= exact < Now(k') as real + (Changes(ops) + 1) as real
  {
    RunForward(c, ops);
    RunAhead(c, ops, ExactNow(c.clock), 0);
    RoundsDown(Run(c, ops).clock);
    assert (Changes(ops) + 1) as real == Changes(ops) as real + 1.0;
  }

  /** A frequency change takes no time, also when the clock stood still before it. */
  lemma ChangeIsInstant(k: Clock, freq: Hz)
    requires freq > 0
    ensures Now(Reclock(k, freq)) == Now(k) && Reclock(k, freq).cycles == k.cycles
  {
    assert CyclesToNs(0, freq) == 0;
  }

  /** Without a frequency the time stands still, and every deadline maps to the current cycle. */
  lemma {:induction false} StoppedStands<T>(c: Cpu<T>, ops: seq<Op<T>>, ns: int)
    requires QueueOk(c.queue) && c.clock.freq == 0 && Changes(ops) == 0
    ensures var k := Run(c, ops).clock; Now(k) == k.simNs == c.clock.simNs && TargetCycle(k, ns) == k.cycles
    decreases |ops|
  {
    if ops != [] {
      StepClock(c, ops[0]);
      StepKeeps(c, ops[0]);
      StoppedStands(Step(c, ops[0]), ops[1..], ns);
    } else {
      NsToCyclesExact(if ns - c.clock.simNs < 0 then 0 else ns - c.clock.simNs, 0);
    }
  }

  // ---- deadlines ----

  /** A target never lies behind the clock; it is the current cycle exactly if the deadline is under a cycle ahead. */
  lemma NeverBehind(k: Clock, ns: int)
    requires k.freq > 0
    ensures TargetCycle(k, ns) >= k.cycles
    ensures TargetCycle(k, ns) == k.cycles <==> (ns - k.simNs) * k.freq < NS
  {
    var d := if ns - k.simNs < 0 then 0 else ns - k.simNs;
    NsToCyclesFloor(d, k.freq);
    if ns - k.simNs < 0 { MulMono(ns - k.simNs, 0, k.freq); }
  }

  /** A time read no later than the deadline and less than one period and one nanosecond before it. */
  predicate OnTime(t: int, ns: int, freq: Hz)
    requires freq > 0
  {
    t <= ns && (ns - t) as real < Period(freq) + 1.0
  }

  /** What the clock shows at the target cycle if its frequency and anchors are those of the scheduling moment. */
  lemma TargetOnTime(k: Clock, ns: int, k': Clock)
    requires Ticking(k) && k.simNs == Now(k) <= ns
    requires k'.freq == k.freq && k'.anchorCycles == k.anchorCycles && k'.anchorNs == k.anchorNs
    requires k'.cycles == TargetCycle(k, ns)
    ensures OnTime(Now(k'), ns, k.freq)
  {
    var f, a, n := k.freq, k.cycles - k.anchorCycles, NsToCycles(ns - k.simNs, k.freq);
    var s, t, d := CyclesToNs(a, f), CyclesToNs(a + n, f), ns - k.anchorNs;
    NsToCyclesFloor(d - s, f);
    CyclesToNsFloor(a, f);
    CyclesToNsFloor(a + n, f);
    Spread(d, s, f);
    Spread(d, t, f);
    Successor(t, f);
    Successor(s, f);
    DeadlineArithmetic(a * NS, n * NS, f, s * f, t * f, d * f);
    if t > d {
      MulAtLeast(t - d, f);
      assert false;
    }
    Successor(d - t - 1, f);
    PeriodAbove(d - t - 1, f);
    assert (d - t) as real == (d - t - 1) as real + 1.0;
  }

  lemma Spread(x: int, y: int, f: int)
    ensures (x - y) * f == x * f - y * f && (y - x) * f == y * f - x * f
  {
  }

  lemma Successor(x: int, f: int)
    ensures (x + 1) * f == x * f + f
  {
  }

  /** The linear core of the deadline bound; each argument stands for a product. */
  lemma DeadlineArithmetic(an: int, nn: int, f: int, sf: int, tf: int, df: int)
    requires sf <= an < sf + f && nn <= df - sf < nn + NS && tf <= an + nn < tf + f
    ensures tf < df + f && df - tf - f < NS
  {
  }

  lemma PeriodAbove(x: int, f: Hz)
    requires f > 0 && x * f < NS
    ensures (x as real) < Period(f)
  {
    MulReal(x, f);
    PeriodTimes(NS as real, f as real);
    SmallerFactor(x as real, Period(f), f as real);
  }

  lemma PeriodTimes(y: real, f: real)
    requires f > 0.0
    ensures y / f * f == y
  {
  }

  lemma SmallerFactor(x: real, q: real, f: real)
    requires f > 0.0 && x * f < q * f
    ensures x < q
  {
  }

  /** Entries of the rebuilt queue with a deadline sit at its target cycle. */
  lemma {:induction false} RebuiltTargets<T>(c: Cpu<T>, freq: Hz, e: Entry<T>)
    requires QueueOk(c.queue) && freq > 0 && e in ChangeFrequency(c, freq).queue && e.ns > 0
    ensures e.cycle == TargetCycle(Reclock(c.clock, freq), e.ns)
  {
    FrequencyChangeSortsStably(c, freq);
    var target := RetargetAll(Reclock(c.clock, freq), c.queue);
    assert e in multiset(target);
    var i :| 0 <= i < |target| && target[i] == e;
    assert e == Retarget(Reclock(c.clock, freq), c.queue[i]);
  }

  // ---- deadlines along a run ----

  /** Without frequency changes a run leaves the frequency and the anchors alone, and the cycles never go back. */
  lemma {:induction false} RunKeepsPace<T>(c: Cpu<T>, ops: seq<Op<T>>)
    requires QueueOk(c.queue) && Changes(ops) == 0
    ensures var k, k' := c.clock, Run(c, ops).clock;
      k'.freq == k.freq && k'.anchorCycles == k.anchorCycles && k'.anchorNs == k.anchorNs && k'.cycles >= k.cycles
    decreases |ops|
  {
    if ops != [] {
      StepClock(c, ops[0]);
      StepKeeps(c, ops[0]);
      RunKeepsPace(Step(c, ops[0]), ops[1..]);
    }
  }

  /**
   An event scheduled by nanoseconds from a synced clock, for a deadline that is not past. However the run goes on
   without changing the frequency, when it is at the event's cycle the synced clock is on time for the deadline.
   */
  lemma FiresOnTime<T>(c: Cpu<T>, ev: T, ns: int, ops: seq<Op<T>>)
    requires QueueOk(c.queue) && Ticking(c.clock) && c.clock.simNs == Now(c.clock) <= ns && Changes(ops) == 0
    ensures var c1 := Act(c, ScheduleNs(ev, ns));
      && QueueOk(c1.queue) && Entry(ev, TargetCycle(c.clock, ns), ns) in c1.queue
      && var k' := Run(c1, ops).clock;
      (k'.cycles == TargetCycle(c.clock, ns) ==> OnTime(Now(k'), ns, c.clock.freq))
  {
    var c1 := Act(c, ScheduleNs(ev, ns));
    ActKeeps(c, ScheduleNs(ev, ns));
    var e := Entry(ev, TargetCycle(c.clock, ns), ns);
    InsertSpares(Remove(c.queue, ev), e, e);
    RunKeepsPace(c1, ops);
    var k' := Run(c1, ops).clock;
    if k'.cycles == TargetCycle(c.clock, ns) {
      TargetOnTime(c.clock, ns, k');
    }
  }

  /** After a frequency change the same holds of every pending deadline that is not past. */
  lemma RetargetedFireOnTime<T>(c: Cpu<T>, freq: Hz, e: Entry<T>, ops: seq<Op<T>>)
    requires QueueOk(c.queue) && freq > 0 && e in ChangeFrequency(c, freq).queue && Changes(ops) == 0
    requires e.ns > 0 && e.ns >= Now(c.clock)
    ensures var c1 := ChangeFrequency(c, freq);
      && QueueOk(c1.queue)
      && var k' := Run(c1, ops).clock;
      (k'.cycles == e.cycle ==> OnTime(Now(k'), e.ns, freq))
  {
    var c1, k := ChangeFrequency(c, freq), Reclock(c.clock, freq);
    RebuiltTargets(c, freq, e);
    FrequencyChangeSortsStably(c, freq);
    assert Now(k) == k.simNs by {
      assert CyclesToNs(0, freq) == 0;
    }
    RunKeepsPace(c1, ops);
    var k' := Run(c1, ops).clock;
    if k'.cycles == e.cycle {
      TargetOnTime(k, e.ns, k');
    }
  }

  // ---- the event itself along a run ----

  /** The operation does not name the event, nor run the loop once its cycle is reached. */
  predicate Leaves<T(==)>(k: Clock, op: Op<T>, e: Entry<T>) {
    match op
    case Do(a) => a.ev != e.ev
    case SetFrequency(_) => true
    case Advance(_) => true
    case Execute(script) => k.cycles < e.cycle && !Touched(script, |script|, e.ev)
  }

  /** The entry after an operation: a frequency change moves it if it has a deadline. */
  function Moved<T>(k: Clock, op: Op<T>, e: Entry<T>): Entry<T> {
    if op.SetFrequency? && op.freq > 0 && e.ns > 0 then Entry(e.ev, TargetCycle(Reclock(k, op.freq), e.ns), e.ns)
    else e
  }

  predicate Spared<T(==)>(c: Cpu<T>, ops: seq<Op<T>>, e: Entry<T>)
    requires QueueOk(c.queue)
    decreases |ops|
  {
    if ops == [] then true
    else
      StepKeeps(c, ops[0]);
      Leaves(c.clock, ops[0], e) && Spared(Step(c, ops[0]), ops[1..], Moved(c.clock, ops[0], e))
  }

  /** The entry after a run. */
  function After<T(==)>(c: Cpu<T>, ops: seq<Op<T>>, e: Entry<T>): (r: Entry<T>)
    requires QueueOk(c.queue)
    ensures r.ev == e.ev && r.ns == e.ns
    ensures e.ns <= 0 || Changes(ops) == 0 ==> r == e
    decreases |ops|
  {
    if ops == [] then e
    else
      StepKeeps(c, ops[0]);
      After(Step(c, ops[0]), ops[1..], Moved(c.clock, ops[0], e))
  }

  /** What fires during a run, in order. */
  function FiredIn<T(==)>(c: Cpu<T>, ops: seq<Op<T>>): seq<T>
    requires QueueOk(c.queue)
    decreases |ops|
  {
    if ops == [] then []
    else
      StepKeeps(c, ops[0]);
      (if ops[0].Execute? then Exec(c, ops[0].script).1 else []) + FiredIn(Step(c, ops[0]), ops[1..])
  }

  lemma Untouched<T>(script: seq<seq<Action<T>>>, ev: T)
    requires !Touched(script, |script|, ev)
    ensures !Names(First(script), ev) && !Touched(Rest(script), |Rest(script)|, ev)
    ensures forall n :: !Touched(script, n, ev)
  {
    if Names(First(script), ev) || Touched(Rest(script), |Rest(script)|, ev) {
      TouchedLater(script, |Rest(script)|, ev);
    }
  }

  /** The loop neither fires nor moves an event before its cycle. */
  lemma {:induction false} ExecSpares<T>(c: Cpu<T>, script: seq<seq<Action<T>>>, e: Entry<T>)
    requires QueueOk(c.queue) && e in c.queue && c.clock.cycles < e.cycle && !Touched(script, |script|, e.ev)
    ensures e in Exec(c, script).0.queue && e.ev !in Exec(c, script).1
    decreases |script|, |DueEvents(c.queue, c.clock.cycles)|
  {
    if Due(c) {
      var popped := Cpu(Sync(c.clock), c.queue[1..]);
      var i :| 0 <= i < |c.queue| && c.queue[i] == e;
      assert popped.queue[i - 1] == e;
      Untouched(script, e.ev);
      ActAllSpare(popped, First(script), e);
      FireTurn(c, script);
      ExecSpares(Fire(c, First(script)), Rest(script), e);
    }
  }

  lemma StepSpares<T>(c: Cpu<T>, op: Op<T>, e: Entry<T>)
    requires QueueOk(c.queue) && e in c.queue && Leaves(c.clock, op, e)
    ensures Moved(c.clock, op, e) in Step(c, op).queue
    ensures op.Execute? ==> e.ev !in Exec(c, op.script).1
  {
    match op {
      case Do(a) => ActSpares(c, a, e);
      case SetFrequency(freq) => FrequencyKeeps(c, freq);
      case Advance(_) =>
      case Execute(script) => ExecSpares(c, script, e);
    }
  }

  /**
   An event that no call names and no loop finds due is still queued at the end of a run and did not fire; one without
   a deadline is still at its cycle, whatever the frequency did.
   */
  lemma {:induction false} RunSpares<T>(c: Cpu<T>, ops: seq<Op<T>>, e: Entry<T>)
    requires QueueOk(c.queue) && e in c.queue && Spared(c, ops, e)
    ensures After(c, ops, e) in Run(c, ops).queue && e.ev !in FiredIn(c, ops)
    decreases |ops|
  {
    if ops != [] {
      StepSpares(c, ops[0], e);
      StepKeeps(c, ops[0]);
      RunSpares(Step(c, ops[0]), ops[1..], Moved(c.clock, ops[0], e));
    }
  }

  /** An event that is queued, due and named by no callback fires, whatever the callbacks do to the others. */
  lemma {:induction false} FiresIfDue<T>(c: Cpu<T>, script: seq<seq<Action<T>>>, e: Entry<T>)
    requires QueueOk(c.queue) && e in c.queue && e.cycle <= c.clock.cycles && !Touched(script, |script|, e.ev)
    ensures e.ev in Exec(c, script).1
    decreases |script|, |DueEvents(c.queue, c.clock.cycles)|
  {
    var i :| 0 <= i < |c.queue| && c.queue[i] == e;
    assert Due(c) by { assert c.queue[0].cycle <= c.queue[i].cycle; }
    FireTurn(c, script);
    if i > 0 {
      var popped := Cpu(Sync(c.clock), c.queue[1..]);
      assert popped.queue[i - 1] == e;
      Untouched(script, e.ev);
      ActAllSpare(popped, First(script), e);
      FiresIfDue(Fire(c, First(script)), Rest(script), e);
    }
  }

  /** At the end of a run that spares it, the loop fires an event if and only if its cycle is reached. */
  lemma FiresWhenReached<T>(c: Cpu<T>, ops: seq<Op<T>>, script: seq<seq<Action<T>>>, e: Entry<T>)
    requires QueueOk(c.queue) && e in c.queue && Spared(c, ops, e) && !Touched(script, |script|, e.ev)
    ensures e.ev !in FiredIn(c, ops)
    ensures var c' := Run(c, ops);
      && (e.ev in Exec(c', script).1 <==> c'.clock.cycles >= After(c, ops, e).cycle)
      && (e.ev in Exec(c', script).1 ==> Exec(c', script).0.clock.simNs == Now(c'.clock))
  {
    var c', e' := Run(c, ops), After(c, ops, e);
    RunSpares(c, ops, e);
    ExecEnds(c', script);
    if c'.clock.cycles >= e'.cycle {
      FiresIfDue(c', script, e');
    } else {
      ExecSpares(c', script, e');
    }
  }

  /**
   An event scheduled by cycle fires when the loop runs at that cycle or later and in no loop before it, whatever the
   run does to other events and to the frequency.
   */
  lemma CycleMet<T>(c: Cpu<T>, ev: T, cycle: int, ops: seq<Op<T>>, script: seq<seq<Action<T>>>)
    requires QueueOk(c.queue) && !Touched(script, |script|, ev)
    requires var c1 := Act(c, Schedule(ev, cycle)); QueueOk(c1.queue) && Spared(c1, ops, Entry(ev, cycle, 0))
    ensures var c1 := Act(c, Schedule(ev, cycle));
      && ev !in FiredIn(c1, ops)
      && (ev in Exec(Run(c1, ops), script).1 <==> Run(c1, ops).clock.cycles >= cycle)
  {
    ActIs(c, Schedule(ev, cycle));
    FiresWhenReached(Act(c, Schedule(ev, cycle)), ops, script, Entry(ev, cycle, 0));
  }

  // ---- deadlines across frequency changes ----

  /** Read at the entry's cycle, the clock as it is anchored now is on time for the deadline. */
  predicate Aimed<T>(k: Clock, e: Entry<T>)
    requires k.freq > 0
  {
    OnTime(Now(k.(cycles := e.cycle)), e.ns, k.freq)
  }

  /** Each frequency change comes before the event's cycle is passed. */
  predicate InTime<T(==)>(c: Cpu<T>, ops: seq<Op<T>>, e: Entry<T>)
    requires QueueOk(c.queue)
    decreases |ops|
  {
    if ops == [] then true
    else
      StepKeeps(c, ops[0]);
      && (Rounding(ops[0]) > 0 ==> c.clock.cycles <= e.cycle)
      && InTime(Step(c, ops[0]), ops[1..], Moved(c.clock, ops[0], e))
  }

  /** A deadline that is met at its cycle is not past before it. */
  lemma NotYetPast<T>(k: Clock, e: Entry<T>)
    requires Ticking(k) && Aimed(k, e) && k.cycles <= e.cycle
    ensures Now(k) <= e.ns
  {
    LaterIsLarger(k.cycles - k.anchorCycles, e.cycle - k.anchorCycles, k.freq);
  }

  lemma StepAims<T>(c: Cpu<T>, op: Op<T>, e: Entry<T>)
    requires QueueOk(c.queue) && Ticking(c.clock) && Aimed(c.clock, e)
    requires Rounding(op) > 0 ==> e.ns > 0 && c.clock.cycles <= e.cycle
    ensures Ticking(Step(c, op).clock) && Aimed(Step(c, op).clock, Moved(c.clock, op, e))
  {
    StepClock(c, op);
    if Rounding(op) > 0 {
      NotYetPast(c.clock, e);
      AimedAnew(c.clock, op.freq, e.ns);
    }
  }

  lemma AimedAnew(k: Clock, freq: Hz, ns: int)
    requires freq > 0 && Now(k) <= ns
    ensures var k' := Reclock(k, freq); OnTime(Now(k'.(cycles := TargetCycle(k', ns))), ns, freq)
  {
    var k' := Reclock(k, freq);
    assert CyclesToNs(0, freq) == 0;
    TargetOnTime(k', ns, k'.(cycles := TargetCycle(k', ns)));
  }

  lemma {:induction false} RunAims<T>(c: Cpu<T>, ops: seq<Op<T>>, e: Entry<T>)
    requires QueueOk(c.queue) && Ticking(c.clock) && Aimed(c.clock, e) && InTime(c, ops, e)
    requires e.ns > 0 || Changes(ops) == 0
    ensures Ticking(Run(c, ops).clock) && Aimed(Run(c, ops).clock, After(c, ops, e))
    decreases |ops|
  {
    if ops != [] {
      StepKeeps(c, ops[0]);
      StepAims(c, ops[0], e);
      RunAims(Step(c, ops[0]), ops[1..], Moved(c.clock, ops[0], e));
    }
  }

  /** An entry that is aimed and spared fires at its cycle, and its callback sees a time on time for the deadline. */
  lemma AimedMet<T>(c: Cpu<T>, ops: seq<Op<T>>, script: seq<seq<Action<T>>>, e: Entry<T>)
    requires QueueOk(c.queue) && Ticking(c.clock) && e in c.queue && Aimed(c.clock, e)
    requires Spared(c, ops, e) && InTime(c, ops, e) && (e.ns > 0 || Changes(ops) == 0)
    requires Run(c, ops).clock.cycles == After(c, ops, e).cycle && !Touched(script, |script|, e.ev)
    ensures var c' := Run(c, ops);
      && e.ev !in FiredIn(c, ops) && e.ev in Exec(c', script).1 && c'.clock.freq > 0
      && OnTime(Exec(c', script).0.clock.simNs, e.ns, c'.clock.freq)
  {
    RunAims(c, ops, e);
    FiresWhenReached(c, ops, script, e);
    var k := Run(c, ops).clock;
    assert k.(cycles := After(c, ops, e).cycle) == k;
  }

  /**
   From scheduling to firing, over every run in which nothing names the event, no frequency change comes after its
   cycle and the loop runs when the clock gets there: the event fires in that loop and in none before, whatever is
   done to other events and to the frequency, and its callback sees a time on time for the deadline.
   */
  lemma DeadlineMet<T>(c: Cpu<T>, ev: T, ns: int, ops: seq<Op<T>>, script: seq<seq<Action<T>>>)
    requires QueueOk(c.queue) && Ticking(c.clock) && c.clock.simNs == Now(c.clock) <= ns
    requires (ns > 0 || Changes(ops) == 0) && !Touched(script, |script|, ev)
    requires var c1, e := Act(c, ScheduleNs(ev, ns)), Entry(ev, TargetCycle(c.clock, ns), ns);
      && QueueOk(c1.queue) && Spared(c1, ops, e) && InTime(c1, ops, e)
      && Run(c1, ops).clock.cycles == After(c1, ops, e).cycle
    ensures var c1 := Act(c, ScheduleNs(ev, ns)); var c2 := Run(c1, ops);
      && ev !in FiredIn(c1, ops) && ev in Exec(c2, script).1 && c2.clock.freq > 0
      && OnTime(Exec(c2, script).0.clock.simNs, ns, c2.clock.freq)
  {
    var c1, e := Act(c, ScheduleNs(ev, ns)), Entry(ev, TargetCycle(c.clock, ns), ns);
    ActIs(c, ScheduleNs(ev, ns));
    TargetOnTime(c.clock, ns, c.clock.(cycles := e.cycle));
    AimedMet(c1, ops, script, e);
  }

  /** The same from a frequency change to the firing, for every pending deadline that is not past. */
  lemma RetargetedDeadlineMet<T>(c: Cpu<T>, freq: Hz, e: Entry<T>, ops: seq<Op<T>>, script: seq<seq<Action<T>>>)
    requires QueueOk(c.queue) && freq > 0 && e in ChangeFrequency(c, freq).queue && e.ns > 0 && e.ns >= Now(c.clock)
    requires var c1 := ChangeFrequency(c, freq);
      && QueueOk(c1.queue) && Spared(c1, ops, e) && InTime(c1, ops, e)
      && Run(c1, ops).clock.cycles == After(c1, ops, e).cycle && !Touched(script, |script|, e.ev)
    ensures var c1 := ChangeFrequency(c, freq); var c2 := Run(c1, ops);
      && e.ev !in FiredIn(c1, ops) && e.ev in Exec(c2, script).1 && c2.clock.freq > 0
      && OnTime(Exec(c2, script).0.clock.simNs, e.ns, c2.clock.freq)
  {
    RebuiltTargets(c, freq, e);
    AimedAnew(c.clock, freq, e.ns);
    AimedMet(ChangeFrequency(c, freq), ops, script, e);
  }

  // ---- what callbacks schedule ----

  /** Where a call made at `k` leaves its event, if it does not come due at once. */
  predicate Placed<T(==)>(k: Clock, a: Action<T>, q: seq<Entry<T>>) {
    match a
    case Schedule(ev, cycle) => cycle > k.cycles ==> Entry(ev, cycle, 0) in q
    case ScheduleNs(ev, ns) => TargetCycle(k, ns) > k.cycles ==> Entry(ev, TargetCycle(k, ns), ns) in q
    case Cancel(ev) => !Queued(q, ev)
  }

  lemma {:induction false} ExecLeavesOut<T>(c: Cpu<T>, script: seq<seq<Action<T>>>, ev: T)
    requires QueueOk(c.queue) && !Queued(c.queue, ev) && !Touched(script, |script|, ev)
    ensures !Queued(Exec(c, script).0.queue, ev)
    decreases |script|, |DueEvents(c.queue, c.clock.cycles)|
  {
    if Due(c) {
      var popped := Cpu(Sync(c.clock), c.queue[1..]);
      assert QueueOk(popped.queue);
      Untouched(script, ev);
      ActAllLeaveOut(popped, First(script), ev);
      FireTurn(c, script);
      ExecLeavesOut(Fire(c, First(script)), Rest(script), ev);
    }
  }

  lemma PlacedStays<T>(c: Cpu<T>, script: seq<seq<Action<T>>>, a: Action<T>)
    requires QueueOk(c.queue) && Placed(c.clock, a, c.queue) && !Touched(script, |script|, a.ev)
    ensures Placed(c.clock, a, Exec(c, script).0.queue)
  {
    match a
    case Schedule(ev, cycle) => if cycle > c.clock.cycles { ExecSpares(c, script, Entry(ev, cycle, 0)); }
    case ScheduleNs(ev, ns) =>
      var target := TargetCycle(c.clock, ns);
      if target > c.clock.cycles { ExecSpares(c, script, Entry(ev, target, ns)); }
    case Cancel(ev) => ExecLeavesOut(c, script, ev);
  }

  lemma FirePlaces<T>(c: Cpu<T>, actions: seq<Action<T>>, i: nat)
    requires QueueOk(c.queue) && Due(c) && i < |actions| && !Names(actions[i + 1..], actions[i].ev)
    ensures Placed(Sync(c.clock), actions[i], Fire(c, actions).queue)
  {
    var popped := Cpu(Sync(c.clock), c.queue[1..]);
    assert QueueOk(popped.queue);
    LastCallHolds(popped, actions, i);
  }

  /**
   The callback of the k-th event fired runs after the clock is brought up to date, and the last call that names an
   event holds: it ends up queued at the cycle given, or at the one its deadline maps to, or nowhere.
   */
  lemma {:induction false} CallbackHolds<T>(c: Cpu<T>, script: seq<seq<Action<T>>>, k: nat, i: nat)
    requires QueueOk(c.queue) && k < |script| && k < |Exec(c, script).1| && i < |script[k]|
    requires !Names(script[k][i + 1..], script[k][i].ev)
    requires !Touched(script[k + 1..], |script[k + 1..]|, script[k][i].ev)
    ensures Placed(Sync(c.clock), script[k][i], Exec(c, script).0.queue)
    decreases k
  {
    var c1, rest := Fire(c, First(script)), script[1..];
    FireTurn(c, script);
    if k == 0 {
      FirePlaces(c, script[0], i);
      PlacedStays(c1, rest, script[0][i]);
    } else {
      assert rest[k..] == script[k + 1..];
      CallbackHolds(c1, rest, k - 1, i);
    }
  }

  /** A deadline that a callback asks for is met like any other, even if the clock was behind when the loop started. */
  lemma CallbackDeadlineMet<T>(c: Cpu<T>, script: seq<seq<Action<T>>>, k: nat, i: nat, ops: seq<Op<T>>,
                               next: seq<seq<Action<T>>>)
    requires QueueOk(c.queue) && Ticking(c.clock) && k < |script| && k < |Exec(c, script).1| && i < |script[k]|
    requires var a := script[k][i];
      && a.ScheduleNs? && Now(c.clock) <= a.ns && (a.ns > 0 || Changes(ops) == 0)
      && !Names(script[k][i + 1..], a.ev) && !Touched(script[k + 1..], |script[k + 1..]|, a.ev)
      && TargetCycle(Sync(c.clock), a.ns) > c.clock.cycles && !Touched(next, |next|, a.ev)
    requires var c1, a := Exec(c, script).0, script[k][i]; var e := Entry(a.ev, TargetCycle(Sync(c.clock), a.ns), a.ns);
      && QueueOk(c1.queue) && Spared(c1, ops, e) && InTime(c1, ops, e)
      && Run(c1, ops).clock.cycles == After(c1, ops, e).cycle
    ensures var a, c1 := script[k][i], Exec(c, script).0; var c2 := Run(c1, ops);
      && a.ev !in FiredIn(c1, ops) && a.ev in Exec(c2, next).1 && c2.clock.freq > 0
      && OnTime(Exec(c2, next).0.clock.simNs, a.ns, c2.clock.freq)
  {
    var c1, a := Exec(c, script).0, script[k][i];
    var e := Entry(a.ev, TargetCycle(Sync(c.clock), a.ns), a.ns);
    CallbackHolds(c, script, k, i);
    ExecEnds(c, script);
    TargetOnTime(Sync(c.clock), a.ns, c1.clock.(cycles := e.cycle));
    AimedMet(c1, ops, next, e);
  }
}
