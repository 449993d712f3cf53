/**
 The per-CPU event queue and its two time domains as a state machine: events sorted by the cycle they
 fire at, some of them standing for a nanosecond deadline that is re-targeted when the clock changes.
 */
module EventQueueSpec {
  import opened CpuTime

  /** A queued event. `ns` is its deadline in nanoseconds, 0 for an event scheduled by cycle. */
  datatype Entry<T> = Entry(ev: T, cycle: int, ns: int)

  /** The cycle counter and the nanosecond clock, which counts from an anchor at the current frequency. */
  datatype Clock = Clock(cycles: int, freq: Hz, simNs: int, anchorCycles: int, anchorNs: int)

  datatype Cpu<T> = Cpu(clock: Clock, queue: seq<Entry<T>>)

  /** What a callback may do to the queue. */
  datatype Action<T> = Schedule(ev: T, cycle: int) | ScheduleNs(ev: T, ns: int) | Cancel(ev: T)

  /** `Execute(script)`: the k-th event fired performs the actions `script[k]`. */
  datatype Op<T> =
    | Do(action: Action<T>)
    | SetFrequency(freq: Hz)
    | Advance(n: nat)
    | Execute(script: seq<seq<Action<T>>>)

  // ---- the queue ----

  function Insert<T>(q: seq<Entry<T>>, e: Entry<T>): seq<Entry<T>> {
    if q == [] || e.cycle < q[0].cycle then [e] + q else [q[0]] + Insert(q[1..], e)
  }

  function Remove<T(==)>(q: seq<Entry<T>>, ev: T): seq<Entry<T>> {
    if q == [] then [] else if q[0].ev == ev then q[1..] else [q[0]] + Remove(q[1..], ev)
  }

  /** Inserts the entries of `q` one by one into `sorted`. */
  function InsertAll<T>(sorted: seq<Entry<T>>, q: seq<Entry<T>>): seq<Entry<T>>
    decreases |q|
  {
    if q == [] then sorted else InsertAll(Insert(sorted, q[0]), q[1..])
  }

  function NextCycle<T>(q: seq<Entry<T>>): int {
    if q == [] then INT64_MAX else q[0].cycle
  }

  // ---- time ----

  /** The nanosecond clock brought up to date with the cycle counter. */
  function Now(k: Clock): int {
    if k.freq > 0 then k.anchorNs + CyclesToNs(k.cycles - k.anchorCycles, k.freq) else k.simNs
  }

  function Sync(k: Clock): Clock {
    k.(simNs := Now(k))
  }

  /** The clock re-anchored at the current instant and running at a new frequency. */
  function Reclock(k: Clock, freq: Hz): Clock {
    Clock(k.cycles, freq, Now(k), k.cycles, Now(k))
  }

  /** The cycle a deadline maps to; deadlines in the past map to the current cycle. */
  function TargetCycle(k: Clock, ns: int): int {
    k.cycles + NsToCycles(if ns - k.simNs < 0 then 0 else ns - k.simNs, k.freq)
  }

  function Retarget<T>(k: Clock, e: Entry<T>): Entry<T> {
    if e.ns > 0 then e.(cycle := TargetCycle(k, e.ns)) else e
  }

  function RetargetAll<T>(k: Clock, q: seq<Entry<T>>): (r: seq<Entry<T>>)
    ensures |r| == |q| && forall i :: 0 <= i < |q| ==> r[i] == Retarget(k, q[i])
  {
    if q == [] then [] else [Retarget(k, q[0])] + RetargetAll(k, q[1..])
  }

  // ---- operations ----

  function Act<T(==)>(c: Cpu<T>, a: Action<T>): Cpu<T> {
    match a
    case Schedule(ev, cycle) => c.(queue := Insert(Remove(c.queue, ev), Entry(ev, cycle, 0)))
    case ScheduleNs(ev, ns) => c.(queue := Insert(Remove(c.queue, ev), Entry(ev, TargetCycle(c.clock, ns), ns)))
    case Cancel(ev) => c.(queue := Remove(c.queue, ev))
  }

  function ActAll<T(==)>(c: Cpu<T>, actions: seq<Action<T>>): Cpu<T>
    decreases |actions|
  {
    if actions == [] then c else ActAll(Act(c, actions[0]), actions[1..])
  }

  function ChangeFrequency<T>(c: Cpu<T>, freq: Hz): Cpu<T> {
    if freq == 0 then c
    else
      var k := Reclock(c.clock, freq);
      Cpu(k, InsertAll([], RetargetAll(k, c.queue)))
  }

  // ---- invariants ----

  predicate Sorted<T>(q: seq<Entry<T>>) {
    forall i, j :: 0 <= i < j < |q| ==> q[i].cycle <= q[j].cycle
  }

  predicate Distinct<T(==)>(q: seq<Entry<T>>) {
    forall i, j :: 0 <= i < j < |q| ==> q[i].ev != q[j].ev
  }

  predicate Queued<T(==)>(q: seq<Entry<T>>, ev: T) {
    exists i :: 0 <= i < |q| && q[i].ev == ev
  }

  predicate QueueOk<T(==)>(q: seq<Entry<T>>) {
    Sorted(q) && Distinct(q)
  }

  /** Where `Insert` puts an entry: behind every entry that is not later. */
  function Slot<T>(q: seq<Entry<T>>, cycle: int): (k: nat)
    ensures k <= |q|
    ensures forall i :: 0 <= i < k ==> q[i].cycle <= cycle
    ensures k < |q| ==> cycle < q[k].cycle
  {
    if q == [] || cycle < q[0].cycle then 0 else 1 + Slot(q[1..], cycle)
  }

  lemma {:induction false} InsertSlot<T>(q: seq<Entry<T>>, e: Entry<T>)
    ensures var k := Slot(q, e.cycle); Insert(q, e) == q[..k] + [e] + q[k..]
  {
    if q != [] && e.cycle >= q[0].cycle {
      InsertSlot(q[1..], e);
      var k := Slot(q[1..], e.cycle);
      assert q[..k + 1] == [q[0]] + q[1..][..k] && q[k + 1..] == q[1..][k..];
    }
  }

  /** FIFO among equals: in a sorted queue everything behind the new entry is strictly later. */
  lemma {:induction false} InsertKeepsSorted<T>(q: seq<Entry<T>>, e: Entry<T>)
    requires Sorted(q)
    ensures Sorted(Insert(q, e))
    ensures forall i :: Slot(q, e.cycle) <= i < |q| ==> e.cycle < q[i].cycle
  {
    InsertSlot(q, e);
    var k, r := Slot(q, e.cycle), Insert(q, e);
    assert forall i :: 0 <= i < |r| ==> r[i] == if i < k then q[i] else if i == k then e else q[i - 1];
  }

  lemma {:induction false} InsertKeepsDistinct<T>(q: seq<Entry<T>>, e: Entry<T>)
    requires Distinct(q) && !Queued(q, e.ev)
    ensures Distinct(Insert(q, e))
  {
    InsertSlot(q, e);
  }

  lemma WithoutLater<T>(q: seq<T>, k: nat)
    requires 0 < k < |q|
    ensures q[..k] + q[k + 1..] == [q[0]] + (q[1..][..k - 1] + q[1..][k..])
  {
  }

  lemma RestDistinct<T>(q: seq<Entry<T>>, ev: T)
    requires Distinct(q) && q != []
    ensures Distinct(q[1..]) && (Queued(q[1..], ev) ==> Queued(q, ev))
  {
    assert forall i :: 0 <= i < |q[1..]| ==> q[1..][i] == q[i + 1];
  }

  /** Removal takes out exactly the named event, if it is queued, and leaves the rest in order. */
  lemma {:induction false} RemoveIs<T>(q: seq<Entry<T>>, ev: T, k: nat)
    requires Distinct(q) && k <= |q|
    requires k < |q| ==> q[k].ev == ev
    requires k == |q| ==> !Queued(q, ev)
    ensures Remove(q, ev) == if k < |q| then q[..k] + q[k + 1..] else q
  {
    if q != [] {
      if q[0].ev == ev {
        assert k == 0;
      } else {
        assert k > 0;
        RestDistinct(q, ev);
        RemoveIs(q[1..], ev, k - 1);
        if k < |q| { WithoutLater(q, k); }
      }
    }
  }

  lemma {:induction false} RemoveKeeps<T>(q: seq<Entry<T>>, ev: T)
    requires QueueOk(q)
    ensures QueueOk(Remove(q, ev)) && !Queued(Remove(q, ev), ev)
  {
    if Queued(q, ev) {
      var k :| 0 <= k < |q| && q[k].ev == ev;
      RemoveIs(q, ev, k);
      LeaveOut(q, Remove(q, ev), k);
    } else {
      RemoveIs(q, ev, |q|);
    }
  }

  lemma LeaveOut<T>(q: seq<Entry<T>>, r: seq<Entry<T>>, k: nat)
    requires QueueOk(q) && k < |q| && r == q[..k] + q[k + 1..]
    ensures QueueOk(r) && !Queued(r, q[k].ev)
  {
    forall i | 0 <= i < |r| ensures r[i].ev != q[k].ev { LeftAt(q, r, k, i); }
    forall i, j | 0 <= i < j < |r| ensures r[i].cycle <= r[j].cycle && r[i].ev != r[j].ev {
      LeftAt(q, r, k, i);
      LeftAt(q, r, k, j);
    }
  }

  lemma LeftAt<T>(q: seq<Entry<T>>, r: seq<Entry<T>>, k: nat, i: nat)
    requires k < |q| && r == q[..k] + q[k + 1..] && i < |r|
    ensures r[i] == q[if i < k then i else i + 1]
  {
  }

  lemma ActKeeps<T>(c: Cpu<T>, a: Action<T>)
    requires QueueOk(c.queue)
    ensures QueueOk(Act(c, a).queue)
  {
    RemoveKeeps(c.queue, a.ev);
    if !a.Cancel? {
      var e := if a.Schedule? then Entry(a.ev, a.cycle, 0) else Entry(a.ev, TargetCycle(c.clock, a.ns), a.ns);
      InsertKeepsSorted(Remove(c.queue, a.ev), e);
      InsertKeepsDistinct(Remove(c.queue, a.ev), e);
    }
  }

  lemma {:induction false} ActAllKeeps<T>(c: Cpu<T>, actions: seq<Action<T>>)
    requires QueueOk(c.queue)
    ensures QueueOk(ActAll(c, actions).queue)
    ensures ActAll(c, actions).clock == c.clock
    decreases |actions|
  {
    if actions != [] {
      ActKeeps(c, actions[0]);
      ActAllKeeps(Act(c, actions[0]), actions[1..]);
    }
  }

  // ---- a frequency change sorts stably ----

  /** The entries that fire at the given cycle, in queue order. */
  function At<T>(q: seq<Entry<T>>, cycle: int): seq<Entry<T>> {
    if q == [] then [] else (if q[0].cycle == cycle then [q[0]] else []) + At(q[1..], cycle)
  }

  lemma {:induction false} AtInsert<T>(q: seq<Entry<T>>, e: Entry<T>, cycle: int)
    requires Sorted(q)
    ensures At(Insert(q, e), cycle) == At(q, cycle) + (if e.cycle == cycle then [e] else [])
  {
    if q == [] || e.cycle < q[0].cycle {
      assert ([e] + q)[1..] == q;
      if e.cycle == cycle {
        AtNone(q, cycle);
      }
    } else {
      AtInsert(q[1..], e, cycle);
      assert Insert(q, e)[1..] == Insert(q[1..], e);
    }
  }

  lemma {:induction false} AtNone<T>(q: seq<Entry<T>>, cycle: int)
    requires forall i :: 0 <= i < |q| ==> q[i].cycle > cycle
    ensures At(q, cycle) == []
  {
    if q != [] {
      AtNone(q[1..], cycle);
    }
  }

  /** The rebuilt queue is sorted and lists, for every cycle, the same entries in the same order. */
  lemma {:induction false} InsertAllSortsStably<T>(sorted: seq<Entry<T>>, q: seq<Entry<T>>, cycle: int)
    requires Sorted(sorted)
    ensures Sorted(InsertAll(sorted, q))
    ensures At(InsertAll(sorted, q), cycle) == At(sorted, cycle) + At(q, cycle)
    decreases |q|
  {
    if q != [] {
      InsertKeepsSorted(sorted, q[0]);
      AtInsert(sorted, q[0], cycle);
      InsertAllSortsStably(Insert(sorted, q[0]), q[1..], cycle);
    }
  }

  lemma {:induction false} InsertPermutes<T>(q: seq<Entry<T>>, e: Entry<T>)
    ensures multiset(Insert(q, e)) == multiset(q) + multiset{e}
  {
    if q != [] && e.cycle >= q[0].cycle {
      InsertPermutes(q[1..], e);
      assert q == [q[0]] + q[1..];
    }
  }

  lemma {:induction false} InsertAllPermutes<T>(sorted: seq<Entry<T>>, q: seq<Entry<T>>)
    ensures multiset(InsertAll(sorted, q)) == multiset(sorted) + multiset(q)
    decreases |q|
  {
    if q != [] {
      InsertPermutes(sorted, q[0]);
      InsertAllPermutes(Insert(sorted, q[0]), q[1..]);
      assert q == [q[0]] + q[1..];
    }
  }

  lemma {:induction false} InsertAllKeepsDistinct<T>(sorted: seq<Entry<T>>, q: seq<Entry<T>>)
    requires Distinct(sorted + q)
    ensures Distinct(InsertAll(sorted, q))
    decreases |q|
  {
    if q == [] {
      assert sorted + q == sorted;
    } else {
      InsertSlot(sorted, q[0]);
      var k := Slot(sorted, q[0].cycle);
      assert sorted + q == sorted[..k] + sorted[k..] + [q[0]] + q[1..];
      MoveKeepsDistinct(sorted[..k], sorted[k..], q[0], q[1..]);
      InsertAllKeepsDistinct(Insert(sorted, q[0]), q[1..]);
    }
  }

  lemma MoveKeepsDistinct<T>(a: seq<Entry<T>>, b: seq<Entry<T>>, x: Entry<T>, c: seq<Entry<T>>)
    requires Distinct(a + b + [x] + c)
    ensures Distinct(a + [x] + b + c)
  {
    var all, moved := a + b + [x] + c, a + [x] + b + c;
    forall i, j | 0 <= i < j < |moved| ensures moved[i].ev != moved[j].ev {
      MovedAt(a, b, x, c, i);
      MovedAt(a, b, x, c, j);
      assert MovedFrom(|a|, |b|, i) != MovedFrom(|a|, |b|, j);
    }
  }

  function MovedFrom(a: nat, b: nat, i: nat): nat {
    if i < a then i else if i == a then a + b else if i <= a + b then i - 1 else i
  }

  lemma MovedAt<T>(a: seq<Entry<T>>, b: seq<Entry<T>>, x: Entry<T>, c: seq<Entry<T>>, i: nat)
    requires i < |a| + 1 + |b| + |c|
    ensures (a + [x] + b + c)[i] == (a + b + [x] + c)[MovedFrom(|a|, |b|, i)]
  {
  }

  /** A frequency change yields a stably sorted permutation of the re-targeted events. */
  lemma {:induction false} FrequencyChangeSortsStably<T>(c: Cpu<T>, freq: Hz)
    requires QueueOk(c.queue) && freq > 0
    ensures var c' := ChangeFrequency(c, freq); var target := RetargetAll(c'.clock, c.queue);
      && QueueOk(c'.queue) && multiset(c'.queue) == multiset(target)
      && forall cycle :: At(c'.queue, cycle) == At(target, cycle)
  {
    var c' := ChangeFrequency(c, freq);
    var target := RetargetAll(c'.clock, c.queue);
    forall cycle ensures Sorted(c'.queue) && At(c'.queue, cycle) == At(target, cycle) {
      InsertAllSortsStably([], target, cycle);
    }
    InsertAllPermutes([], target);
    assert Distinct([] + target);
    InsertAllKeepsDistinct([], target);
  }

  /** The events of a queue with their deadlines, but without their cycles. */
  function Tags<T>(q: seq<Entry<T>>): seq<(T, int)> {
    if q == [] then [] else [(q[0].ev, q[0].ns)] + Tags(q[1..])
  }

  lemma {:induction false} InsertTags<T>(q: seq<Entry<T>>, e: Entry<T>)
    ensures multiset(Tags(Insert(q, e))) == multiset(Tags(q)) + multiset{(e.ev, e.ns)}
  {
    if q == [] || e.cycle < q[0].cycle {
      assert ([e] + q)[1..] == q;
    } else {
      InsertTags(q[1..], e);
      assert Insert(q, e)[1..] == Insert(q[1..], e);
    }
  }

  lemma {:induction false} InsertAllTags<T>(sorted: seq<Entry<T>>, q: seq<Entry<T>>)
    ensures multiset(Tags(InsertAll(sorted, q))) == multiset(Tags(sorted)) + multiset(Tags(q))
    decreases |q|
  {
    if q != [] {
      InsertTags(sorted, q[0]);
      InsertAllTags(Insert(sorted, q[0]), q[1..]);
    }
  }

  lemma {:induction false} RetargetTags<T>(k: Clock, q: seq<Entry<T>>)
    ensures Tags(RetargetAll(k, q)) == Tags(q)
  {
    if q != [] {
      RetargetTags(k, q[1..]);
      assert RetargetAll(k, q)[1..] == RetargetAll(k, q[1..]);
    }
  }

  lemma RebuiltFrom<T>(k: Clock, q: seq<Entry<T>>, e: Entry<T>)
    requires e in q
    ensures Retarget(k, e) in InsertAll([], RetargetAll(k, q))
  {
    var target := RetargetAll(k, q);
    InsertAllPermutes([], target);
    var i :| 0 <= i < |q| && q[i] == e;
    assert target[i] == Retarget(k, e);
    assert Retarget(k, e) in multiset(InsertAll([], target));
  }

  /**
   A frequency change keeps every event and its deadline. Events scheduled by cycle stay at their cycle, those with a
   deadline move to the cycle it maps to on the new clock. A frequency of zero changes nothing.
   */
  lemma FrequencyKeeps<T>(c: Cpu<T>, freq: Hz)
    ensures multiset(Tags(ChangeFrequency(c, freq).queue)) == multiset(Tags(c.queue))
    ensures forall e :: e in c.queue && e.ns <= 0 ==> e in ChangeFrequency(c, freq).queue
    ensures forall e :: e in c.queue && e.ns > 0 && freq > 0 ==>
              Entry(e.ev, TargetCycle(Reclock(c.clock, freq), e.ns), e.ns) in ChangeFrequency(c, freq).queue
    ensures freq == 0 ==> ChangeFrequency(c, freq) == c
  {
    if freq > 0 {
      var k := Reclock(c.clock, freq);
      InsertAllTags([], RetargetAll(k, c.queue));
      RetargetTags(k, c.queue);
      forall e | e in c.queue ensures Retarget(k, e) in ChangeFrequency(c, freq).queue { RebuiltFrom(k, c.queue, e); }
    }
  }

  // ---- executing due events ----

  predicate Due<T>(c: Cpu<T>) {
    c.queue != [] && c.clock.cycles >= c.queue[0].cycle
  }

  /** The events that are due at the given cycle, in queue order. */
  function DueEvents<T>(q: seq<Entry<T>>, cycles: int): seq<T> {
    if q == [] then [] else (if q[0].cycle <= cycles then [q[0].ev] else []) + DueEvents(q[1..], cycles)
  }

  /** The cycle an action schedules lies strictly ahead of the current one. */
  predicate Future<T>(k: Clock, a: Action<T>) {
    match a
    case Schedule(_, cycle) => cycle > k.cycles
    case ScheduleNs(_, ns) => TargetCycle(Sync(k), ns) > k.cycles
    case Cancel(_) => true
  }

  predicate AllFuture<T>(k: Clock, actions: seq<Action<T>>) {
    forall i :: 0 <= i < |actions| ==> Future(k, actions[i])
  }

  predicate LooksAhead<T>(clock: Clock, script: seq<seq<Action<T>>>) {
    forall k :: 0 <= k < |script| ==> AllFuture(clock, script[k])
  }

  function First<T>(script: seq<seq<Action<T>>>): seq<Action<T>> {
    if script == [] then [] else script[0]
  }

  function Rest<T>(script: seq<seq<Action<T>>>): seq<seq<Action<T>>> {
    if script == [] then [] else script[1..]
  }

  /** One turn of the loop: take the head off, bring the clock up to date, run the callback. */
  function Fire<T(==)>(c: Cpu<T>, actions: seq<Action<T>>): Cpu<T>
    requires c.queue != []
  {
    ActAll(Cpu(Sync(c.clock), c.queue[1..]), actions)
  }

  /**
   The whole loop. Callbacks may do anything to the queue: the script is finite, and once it is used up the due
   events only get fewer.
   */
  function Exec<T(==)>(c: Cpu<T>, script: seq<seq<Action<T>>>): (r: (Cpu<T>, seq<T>))
    requires QueueOk(c.queue)
    decreases |script|, |DueEvents(c.queue, c.clock.cycles)|
  {
    if !Due(c) then (c, [])
    else
      FireTurn(c, script);
      var (c', fired) := Exec(Fire(c, First(script)), Rest(script));
      (c', [c.queue[0].ev] + fired)
  }

  /** One turn keeps the queue in order, syncs the clock, and either uses up a callback or a due event. */
  lemma FireTurn<T>(c: Cpu<T>, script: seq<seq<Action<T>>>)
    requires QueueOk(c.queue) && Due(c)
    ensures var c' := Fire(c, First(script));
      && QueueOk(c'.queue) && c'.clock == Sync(c.clock)
      && (script == [] ==> |DueEvents(c'.queue, c'.clock.cycles)| < |DueEvents(c.queue, c.clock.cycles)|)
  {
    var c1 := Cpu(Sync(c.clock), c.queue[1..]);
    assert QueueOk(c1.queue);
    ActAllKeeps(c1, First(script));
    assert DueEvents(c.queue, c.clock.cycles) == [c.queue[0].ev] + DueEvents(c1.queue, c.clock.cycles);
  }

  /** Whatever the callbacks do, the loop leaves an ordered queue with nothing due, and only syncs the clock. */
  lemma {:induction false} ExecEnds<T>(c: Cpu<T>, script: seq<seq<Action<T>>>)
    requires QueueOk(c.queue)
    ensures var (c', fired) := Exec(c, script);
      && QueueOk(c'.queue) && !Due(c')
      && c'.clock == (if fired == [] then c.clock else Sync(c.clock))
    decreases |script|, |DueEvents(c.queue, c.clock.cycles)|
  {
    if Due(c) {
      FireTurn(c, script);
      ExecEnds(Fire(c, First(script)), Rest(script));
    }
  }

  /** `a` arises from `b` by leaving elements out. */
  predicate Subsequence<T(==)>(a: seq<T>, b: seq<T>)
    decreases |b|
  {
    a == [] || (b != [] && (Subsequence(a, b[1..]) || (a[0] == b[0] && Subsequence(a[1..], b[1..]))))
  }

  lemma SubsequenceCons<T>(x: T, a: seq<T>, b: seq<T>)
    requires Subsequence(a, b)
    ensures Subsequence(a, [x] + b) && Subsequence([x] + a, [x] + b)
  {
    assert ([x] + b)[1..] == b && ([x] + a)[1..] == a;
  }

  lemma {:induction false} SubsequenceTransitive<T>(a: seq<T>, b: seq<T>, c: seq<T>)
    requires Subsequence(a, b) && Subsequence(b, c)
    ensures Subsequence(a, c)
    decreases |c|
  {
    if a != [] {
      if Subsequence(b, c[1..]) {
        SubsequenceTransitive(a, b, c[1..]);
      } else if Subsequence(a, b[1..]) {
        SubsequenceTransitive(a, b[1..], c[1..]);
      } else {
        SubsequenceTransitive(a[1..], b[1..], c[1..]);
      }
    }
  }

  lemma {:induction false} SubsequenceSelf<T>(a: seq<T>)
    ensures Subsequence(a, a)
  {
    if a != [] {
      SubsequenceSelf(a[1..]);
    }
  }

  lemma {:induction false} SubsequenceMembers<T>(a: seq<T>, b: seq<T>, x: T)
    requires Subsequence(a, b) && x in a
    ensures x in b
    decreases |b|
  {
    if Subsequence(a, b[1..]) {
      SubsequenceMembers(a, b[1..], x);
    } else if x != a[0] {
      SubsequenceMembers(a[1..], b[1..], x);
    }
  }

  lemma {:induction false} SubsequenceShorter<T>(a: seq<T>, b: seq<T>)
    requires Subsequence(a, b)
    ensures |a| <= |b|
    decreases |b|
  {
    if a != [] {
      if Subsequence(a, b[1..]) {
        SubsequenceShorter(a, b[1..]);
      } else {
        SubsequenceShorter(a[1..], b[1..]);
      }
    }
  }

  lemma {:induction false} DueInsert<T>(q: seq<Entry<T>>, e: Entry<T>, cycles: int)
    requires e.cycle > cycles
    ensures DueEvents(Insert(q, e), cycles) == DueEvents(q, cycles)
  {
    if q == [] || e.cycle < q[0].cycle {
      assert ([e] + q)[1..] == q;
    } else {
      DueInsert(q[1..], e, cycles);
      assert Insert(q, e)[1..] == Insert(q[1..], e);
    }
  }

  lemma {:induction false} DueRemove<T>(q: seq<Entry<T>>, ev: T, cycles: int)
    ensures Subsequence(DueEvents(Remove(q, ev), cycles), DueEvents(q, cycles))
    ensures forall x :: x in DueEvents(q, cycles) && x != ev ==> x in DueEvents(Remove(q, ev), cycles)
  {
    if q != [] {
      if q[0].ev == ev {
        SubsequenceSelf(DueEvents(q[1..], cycles));
        assert [] + DueEvents(q[1..], cycles) == DueEvents(q[1..], cycles);
        SubsequenceCons(ev, DueEvents(q[1..], cycles), DueEvents(q[1..], cycles));
      } else {
        DueRemove(q[1..], ev, cycles);
        assert Remove(q, ev)[1..] == Remove(q[1..], ev);
        assert [] + DueEvents(q[1..], cycles) == DueEvents(q[1..], cycles);
        assert [] + DueEvents(Remove(q[1..], ev), cycles) == DueEvents(Remove(q[1..], ev), cycles);
        SubsequenceCons(q[0].ev, DueEvents(Remove(q[1..], ev), cycles), DueEvents(q[1..], cycles));
      }
    }
  }

  lemma ActDue<T>(c: Cpu<T>, a: Action<T>)
    requires Future(c.clock, a) && c.clock == Sync(c.clock)
    ensures Subsequence(DueEvents(Act(c, a).queue, c.clock.cycles), DueEvents(c.queue, c.clock.cycles))
    ensures forall x :: x in DueEvents(c.queue, c.clock.cycles) && x != a.ev ==>
              x in DueEvents(Act(c, a).queue, c.clock.cycles)
  {
    DueRemove(c.queue, a.ev, c.clock.cycles);
    if a.Schedule? {
      DueInsert(Remove(c.queue, a.ev), Entry(a.ev, a.cycle, 0), c.clock.cycles);
    } else if a.ScheduleNs? {
      DueInsert(Remove(c.queue, a.ev), Entry(a.ev, TargetCycle(c.clock, a.ns), a.ns), c.clock.cycles);
    }
  }

  predicate Names<T(==)>(actions: seq<Action<T>>, ev: T) {
    exists i :: 0 <= i < |actions| && actions[i].ev == ev
  }

  /** Callbacks that look ahead only take due events away, and only those they name. */
  lemma {:induction false} ActAllDue<T>(c: Cpu<T>, actions: seq<Action<T>>)
    requires AllFuture(c.clock, actions) && c.clock == Sync(c.clock)
    ensures Subsequence(DueEvents(ActAll(c, actions).queue, c.clock.cycles), DueEvents(c.queue, c.clock.cycles))
    ensures forall x :: x in DueEvents(c.queue, c.clock.cycles) && !Names(actions, x) ==>
      x in DueEvents(ActAll(c, actions).queue, c.clock.cycles)
    decreases |actions|
  {
    if actions == [] {
      SubsequenceSelf(DueEvents(c.queue, c.clock.cycles));
    } else {
      var c1 := Act(c, actions[0]);
      ActDue(c, actions[0]);
      assert forall i :: 0 <= i < |actions[1..]| ==> actions[1..][i] == actions[i + 1];
      ActAllDue(c1, actions[1..]);
      SubsequenceTransitive(DueEvents(ActAll(c1, actions[1..]).queue, c.clock.cycles),
                            DueEvents(c1.queue, c.clock.cycles), DueEvents(c.queue, c.clock.cycles));
      assert forall x :: Names(actions[1..], x) ==> Names(actions, x);
    }
  }

  lemma FireShrinks<T>(c: Cpu<T>, script: seq<seq<Action<T>>>)
    requires QueueOk(c.queue) && Due(c) && LooksAhead(c.clock, script)
    ensures var c' := Fire(c, First(script));
      && QueueOk(c'.queue) && LooksAhead(c'.clock, Rest(script)) && c'.clock == Sync(c.clock)
      && Subsequence(DueEvents(c'.queue, c.clock.cycles), DueEvents(c.queue, c.clock.cycles)[1..])
      && (forall x :: x in DueEvents(c.queue, c.clock.cycles)[1..] && !Names(First(script), x) ==>
            x in DueEvents(c'.queue, c.clock.cycles))
      && |DueEvents(c'.queue, c.clock.cycles)| < |DueEvents(c.queue, c.clock.cycles)|
  {
    var c1 := Cpu(Sync(c.clock), c.queue[1..]);
    assert QueueOk(c1.queue);
    ActAllKeeps(c1, First(script));
    assert Now(c1.clock) == Now(c.clock);
    assert AllFuture(c1.clock, First(script));
    ActAllDue(c1, First(script));
    var due := DueEvents(c.queue, c.clock.cycles);
    assert due == [c.queue[0].ev] + DueEvents(c1.queue, c.clock.cycles);
    assert due[1..] == DueEvents(c1.queue, c.clock.cycles);
    SubsequenceShorter(DueEvents(Fire(c, First(script)).queue, c.clock.cycles), due[1..]);
    forall k | 0 <= k < |Rest(script)| ensures AllFuture(c1.clock, Rest(script)[k]) {
      assert Rest(script)[k] == script[k + 1];
    }
  }

  /** `fired` events in, the loop has reached `c` and what remains of the script leads to the outcome `r`. */
  predicate Reached<T(==)>(r: (Cpu<T>, seq<T>), c: Cpu<T>, script: seq<seq<Action<T>>>, fired: seq<T>) {
    QueueOk(c.queue) && r.0 == Exec(c, script).0 && r.1 == fired + Exec(c, script).1
  }

  lemma ReachedTurn<T>(r: (Cpu<T>, seq<T>), c: Cpu<T>, script: seq<seq<Action<T>>>, fired: seq<T>)
    requires Reached(r, c, script, fired) && Due(c)
    ensures var c' := Fire(c, First(script));
      && Reached(r, c', Rest(script), fired + [c.queue[0].ev])
      && (script == [] ==> |DueEvents(c'.queue, c'.clock.cycles)| < |DueEvents(c.queue, c.clock.cycles)|)
  {
    FireTurn(c, script);
    var rest := Exec(Fire(c, First(script)), Rest(script)).1;
    assert fired + ([c.queue[0].ev] + rest) == fired + [c.queue[0].ev] + rest;
  }

  lemma ReachedEnd<T>(r: (Cpu<T>, seq<T>), c: Cpu<T>, script: seq<seq<Action<T>>>, fired: seq<T>)
    requires Reached(r, c, script, fired) && !Due(c)
    ensures r.0 == c && r.1 == fired
  {
    assert fired + [] == fired;
  }

  /** `ev` is scheduled or cancelled by one of the first `n` callbacks. */
  predicate Touched<T(==)>(script: seq<seq<Action<T>>>, n: nat, ev: T) {
    exists k :: 0 <= k < n && k < |script| && Names(script[k], ev)
  }

  /**
   If the callbacks look ahead, what fires is due at the start, in queue order and at most once, and a due event
   that does not fire was taken out by an earlier callback.
   */
  lemma {:induction false} ExecResult<T>(c: Cpu<T>, script: seq<seq<Action<T>>>)
    requires QueueOk(c.queue) && LooksAhead(c.clock, script)
    ensures var (c', fired) := Exec(c, script); var due := DueEvents(c.queue, c.clock.cycles);
      && Subsequence(fired, due)
      && forall x :: x in due && x !in fired ==> Touched(script, |fired|, x)
    decreases |DueEvents(c.queue, c.clock.cycles)|
  {
    var due := DueEvents(c.queue, c.clock.cycles);
    if !Due(c) {
      NothingDue(c.queue, c.clock.cycles);
    } else {
      FireShrinks(c, script);
      var c1, head := Fire(c, First(script)), c.queue[0].ev;
      var due1 := DueEvents(c1.queue, c.clock.cycles);
      ExecResult(c1, Rest(script));
      var (c', rest) := Exec(c1, Rest(script));
      assert due == [head] + due[1..];
      SubsequenceTransitive(rest, due1, due[1..]);
      SubsequenceCons(head, rest, due[1..]);
      forall x | x in due && x !in [head] + rest ensures Touched(script, 1 + |rest|, x) {
        if !Names(First(script), x) { assert x in due1; }
        TouchedLater(script, |rest|, x);
      }
    }
  }

  lemma TouchedLater<T>(script: seq<seq<Action<T>>>, n: nat, x: T)
    requires Names(First(script), x) || Touched(Rest(script), n, x)
    ensures Touched(script, 1 + n, x)
  {
    if Names(First(script), x) {
      assert script != [] && Names(script[0], x);
    } else {
      var k :| 0 <= k < n && k < |Rest(script)| && Names(Rest(script)[k], x);
      assert Names(script[k + 1], x);
    }
  }

  lemma {:induction false} NothingDue<T>(q: seq<Entry<T>>, cycles: int)
    requires Sorted(q) && (q != [] ==> cycles < q[0].cycle)
    ensures DueEvents(q, cycles) == []
  {
    if q != [] {
      NothingDue(q[1..], cycles);
    }
  }

  /** Due events are distinct, so no event fires twice. */
  lemma {:induction false} FiredOnce<T>(q: seq<Entry<T>>, cycles: int, fired: seq<T>, i: nat, j: nat)
    requires Distinct(q) && Subsequence(fired, DueEvents(q, cycles)) && i < j < |fired|
    ensures fired[i] != fired[j]
    decreases |q|
  {
    var rest := DueEvents(q[1..], cycles);
    assert q[0].cycle > cycles ==> [] + rest == rest;
    if Subsequence(fired, rest) {
      FiredOnce(q[1..], cycles, fired, i, j);
    } else {
      assert DueEvents(q, cycles)[1..] == rest && fired[0] == q[0].ev;
      if i > 0 {
        FiredOnce(q[1..], cycles, fired[1..], i - 1, j - 1);
      } else {
        assert fired[j] == fired[1..][j - 1];
        SubsequenceMembers(fired[1..], rest, fired[j]);
        DueAreQueued(q[1..], cycles, fired[j]);
      }
    }
  }

  lemma {:induction false} DueAreQueued<T>(q: seq<Entry<T>>, cycles: int, ev: T)
    requires ev in DueEvents(q, cycles)
    ensures exists i :: 0 <= i < |q| && q[i].ev == ev && q[i].cycle <= cycles
  {
    if q[0].cycle <= cycles && q[0].ev == ev {
    } else {
      DueAreQueued(q[1..], cycles, ev);
      var i :| 0 <= i < |q[1..]| && q[1..][i].ev == ev && q[1..][i].cycle <= cycles;
      assert q[i + 1].ev == ev;
    }
  }

  // ---- entries that calls leave alone ----

  lemma {:induction false} RemoveSpares<T>(q: seq<Entry<T>>, ev: T, e: Entry<T>)
    requires e in q && e.ev != ev
    ensures e in Remove(q, ev)
  {
    if q[0] != e { RemoveSpares(q[1..], ev, e); }
  }

  lemma {:induction false} InsertSpares<T>(q: seq<Entry<T>>, x: Entry<T>, e: Entry<T>)
    requires e in q || e == x
    ensures e in Insert(q, x)
  {
    if q != [] && x.cycle >= q[0].cycle && q[0] != e { InsertSpares(q[1..], x, e); }
  }

  lemma ActSpares<T>(c: Cpu<T>, a: Action<T>, e: Entry<T>)
    requires e in c.queue && a.ev != e.ev
    ensures e in Act(c, a).queue
  {
    RemoveSpares(c.queue, a.ev, e);
    var r := Remove(c.queue, a.ev);
    if a.Schedule? {
      InsertSpares(r, Entry(a.ev, a.cycle, 0), e);
    } else if a.ScheduleNs? {
      InsertSpares(r, Entry(a.ev, TargetCycle(c.clock, a.ns), a.ns), e);
    }
  }

  /** Entries of events that no call names stay as they are. */
  lemma {:induction false} ActAllSpare<T>(c: Cpu<T>, actions: seq<Action<T>>, e: Entry<T>)
    requires e in c.queue && !Names(actions, e.ev)
    ensures e in ActAll(c, actions).queue
    decreases |actions|
  {
    if actions != [] {
      var rest := actions[1..];
      assert actions[0].ev != e.ev;
      ActSpares(c, actions[0], e);
      assert forall i :: 0 <= i < |rest| ==> rest[i] == actions[i + 1];
      ActAllSpare(Act(c, actions[0]), rest, e);
    }
  }

  lemma {:induction false} RemovedFrom<T>(q: seq<Entry<T>>, ev: T, e: Entry<T>)
    requires e in Remove(q, ev)
    ensures e in q
  {
    if q[0].ev != ev && e != q[0] { RemovedFrom(q[1..], ev, e); }
  }

  lemma InsertedTo<T>(q: seq<Entry<T>>, x: Entry<T>, e: Entry<T>)
    requires e in Insert(q, x)
    ensures e == x || e in q
  {
    InsertSlot(q, x);
  }

  /** The queue after a call: the entries of other events as before and, of its own event, at most one. */
  ghost predicate Holds<T>(before: seq<Entry<T>>, after: seq<Entry<T>>, ev: T, own: set<Entry<T>>) {
    && (forall e :: e in before && e.ev != ev ==> e in after)
    && (forall e :: e in after ==> e in own || (e in before && e.ev != ev))
    && (forall e :: e in own ==> e in after)
  }

  /**
   Scheduling puts the event at the cycle given, without a deadline, or at the cycle its deadline maps to, and
   cancelling leaves it nowhere, whatever was queued for it. Other events stay as they are.
   */
  lemma ActIs<T>(c: Cpu<T>, a: Action<T>)
    requires QueueOk(c.queue)
    ensures Act(c, a).clock == c.clock
    ensures a.Schedule? ==> Holds(c.queue, Act(c, a).queue, a.ev, {Entry(a.ev, a.cycle, 0)})
    ensures a.ScheduleNs? ==>
              Holds(c.queue, Act(c, a).queue, a.ev, {Entry(a.ev, TargetCycle(c.clock, a.ns), a.ns)})
    ensures a.Cancel? ==> Holds(c.queue, Act(c, a).queue, a.ev, {})
  {
    var r, q := Remove(c.queue, a.ev), Act(c, a).queue;
    RemoveKeeps(c.queue, a.ev);
    forall e | e in c.queue && e.ev != a.ev ensures e in q { ActSpares(c, a, e); }
    forall e | e in r ensures e in c.queue && e.ev != a.ev { RemovedFrom(c.queue, a.ev, e); }
    if !a.Cancel? {
      var x := if a.Schedule? then Entry(a.ev, a.cycle, 0) else Entry(a.ev, TargetCycle(c.clock, a.ns), a.ns);
      InsertSpares(r, x, x);
      forall e | e in q ensures e == x || e in r { InsertedTo(r, x, e); }
    }
  }

  /** Of several calls that name an event the last one holds. */
  lemma {:induction false} LastCallHolds<T>(c: Cpu<T>, actions: seq<Action<T>>, i: nat)
    requires QueueOk(c.queue) && i < |actions| && !Names(actions[i + 1..], actions[i].ev)
    ensures var a, q := actions[i], ActAll(c, actions).queue;
      && (a.Schedule? ==> Entry(a.ev, a.cycle, 0) in q)
      && (a.ScheduleNs? ==> Entry(a.ev, TargetCycle(c.clock, a.ns), a.ns) in q)
      && (a.Cancel? ==> !Queued(q, a.ev))
    decreases |actions|
  {
    var a, c1, rest := actions[i], Act(c, actions[0]), actions[1..];
    ActKeeps(c, actions[0]);
    if i > 0 {
      assert rest[i..] == actions[i + 1..];
      LastCallHolds(c1, rest, i - 1);
    } else {
      ActIs(c, a);
      if a.Schedule? {
        ActAllSpare(c1, rest, Entry(a.ev, a.cycle, 0));
      } else if a.ScheduleNs? {
        ActAllSpare(c1, rest, Entry(a.ev, TargetCycle(c.clock, a.ns), a.ns));
      } else {
        ActAllLeaveOut(c1, rest, a.ev);
      }
    }
  }

  /** Calls that do not name an event do not queue it. */
  lemma {:induction false} ActAllLeaveOut<T>(c: Cpu<T>, actions: seq<Action<T>>, ev: T)
    requires QueueOk(c.queue) && !Queued(c.queue, ev) && !Names(actions, ev)
    ensures !Queued(ActAll(c, actions).queue, ev)
    decreases |actions|
  {
    if actions != [] {
      var c1, rest := Act(c, actions[0]), actions[1..];
      ActIs(c, actions[0]);
      ActKeeps(c, actions[0]);
      assert actions[0].ev != ev;
      forall j | 0 <= j < |c1.queue| ensures c1.queue[j].ev != ev {
        var e := c1.queue[j];
        if e in c.queue { assert exists k :: 0 <= k < |c.queue| && c.queue[k] == e; }
      }
      assert forall j :: 0 <= j < |rest| ==> rest[j] == actions[j + 1];
      ActAllLeaveOut(c1, rest, ev);
    }
  }

  /** The cached deadline is the earliest cycle in the queue, so comparing with it tells whether anything is due. */
  lemma NextIsEarliest<T>(c: Cpu<T>)
    requires QueueOk(c.queue)
    ensures forall e :: e in c.queue ==> NextCycle(c.queue) <= e.cycle
    ensures if c.queue == [] then NextCycle(c.queue) == 0x7FFF_FFFF_FFFF_FFFF
            else exists e :: e in c.queue && e.cycle == NextCycle(c.queue)
    ensures c.clock.cycles < 0x7FFF_FFFF_FFFF_FFFF ==> (Due(c) <==> c.clock.cycles >= NextCycle(c.queue))
  {
    forall e | e in c.queue ensures NextCycle(c.queue) <= e.cycle {
      var i :| 0 <= i < |c.queue| && c.queue[i] == e;
      assert i > 0 ==> c.queue[0].cycle <= c.queue[i].cycle;
    }
    if c.queue != [] { assert c.queue[0] in c.queue; }
  }

  // ---- callbacks that do not look ahead ----

  lemma {:induction false} DueAfterInsert<T>(q: seq<Entry<T>>, e: Entry<T>, cycles: int)
    ensures |DueEvents(Insert(q, e), cycles)| <= |DueEvents(q, cycles)| + 1
    ensures forall x :: x in DueEvents(Insert(q, e), cycles) ==> x == e.ev || x in DueEvents(q, cycles)
  {
    if q == [] || e.cycle < q[0].cycle {
      assert ([e] + q)[1..] == q;
    } else {
      DueAfterInsert(q[1..], e, cycles);
      assert Insert(q, e)[1..] == Insert(q[1..], e);
    }
  }

  lemma ActAddsDue<T>(c: Cpu<T>, a: Action<T>, cycles: int)
    ensures |DueEvents(Act(c, a).queue, cycles)| <= |DueEvents(c.queue, cycles)| + 1
    ensures forall x :: x in DueEvents(Act(c, a).queue, cycles) ==> x == a.ev || x in DueEvents(c.queue, cycles)
  {
    DueRemove(c.queue, a.ev, cycles);
    var q := Remove(c.queue, a.ev);
    SubsequenceShorter(DueEvents(q, cycles), DueEvents(c.queue, cycles));
    forall x | x in DueEvents(q, cycles) ensures x in DueEvents(c.queue, cycles) {
      SubsequenceMembers(DueEvents(q, cycles), DueEvents(c.queue, cycles), x);
    }
    if a.Schedule? {
      DueAfterInsert(q, Entry(a.ev, a.cycle, 0), cycles);
    } else if a.ScheduleNs? {
      DueAfterInsert(q, Entry(a.ev, TargetCycle(c.clock, a.ns), a.ns), cycles);
    }
  }

  lemma {:induction false} ActAllAddDue<T>(c: Cpu<T>, actions: seq<Action<T>>, cycles: int)
    ensures |DueEvents(ActAll(c, actions).queue, cycles)| <= |DueEvents(c.queue, cycles)| + |actions|
    ensures forall x :: x in DueEvents(ActAll(c, actions).queue, cycles) ==>
              Names(actions, x) || x in DueEvents(c.queue, cycles)
    decreases |actions|
  {
    if actions != [] {
      var c1, rest := Act(c, actions[0]), actions[1..];
      ActAddsDue(c, actions[0], cycles);
      ActAllAddDue(c1, rest, cycles);
      forall x | x in DueEvents(ActAll(c, actions).queue, cycles) && x !in DueEvents(c.queue, cycles)
        ensures Names(actions, x)
      {
        if x == actions[0].ev {
        } else {
          assert Names(rest, x);
          var i :| 0 <= i < |rest| && rest[i].ev == x;
          assert actions[i + 1].ev == x;
        }
      }
    }
  }

  /** All the calls in a script. */
  function Calls<T>(script: seq<seq<Action<T>>>): nat {
    if script == [] then 0 else |script[0]| + Calls(script[1..])
  }

  /**
   With any callbacks at all, an event fires only if it was due at the start or an earlier callback named it, and
   there are at most as many firings as events due at the start and calls made.
   */
  lemma {:induction false} FiredAreDueOrNamed<T>(c: Cpu<T>, script: seq<seq<Action<T>>>)
    requires QueueOk(c.queue)
    ensures var fired := Exec(c, script).1; var due := DueEvents(c.queue, c.clock.cycles);
      && |fired| <= |due| + Calls(script)
      && forall k :: 0 <= k < |fired| ==> fired[k] in due || Touched(script, k, fired[k])
    decreases |script|, |DueEvents(c.queue, c.clock.cycles)|
  {
    if Due(c) {
      var c1, head, due := Fire(c, First(script)), c.queue[0].ev, DueEvents(c.queue, c.clock.cycles);
      var popped := Cpu(Sync(c.clock), c.queue[1..]);
      FireTurn(c, script);
      ActAllAddDue(popped, First(script), c.clock.cycles);
      assert due == [head] + DueEvents(popped.queue, c.clock.cycles);
      FiredAreDueOrNamed(c1, Rest(script));
      var fired, rest := Exec(c, script).1, Exec(c1, Rest(script)).1;
      assert fired == [head] + rest;
      forall k | 0 <= k < |fired| ensures fired[k] in due || Touched(script, k, fired[k]) {
        if k > 0 && fired[k] !in due {
          assert fired[k] == rest[k - 1];
          TouchedLater(script, k - 1, fired[k]);
        }
      }
    }
  }

  /** The loop, turn by turn, when `a` is what the callback of its event does and `others` what the others' do. */
  function Turns<T(==)>(c: Cpu<T>, a: Action<T>, others: T -> seq<Action<T>>, n: nat): Cpu<T> {
    if n == 0 then c
    else
      var c' := Turns(c, a, others, n - 1);
      if Due(c') then Fire(c', Behaviour(c'.queue[0].ev, a, others)) else c'
  }

  function Behaviour<T(==)>(ev: T, a: Action<T>, others: T -> seq<Action<T>>): seq<Action<T>> {
    if ev == a.ev then [a] else others(ev)
  }

  /** The event is in the queue, to fire no later than the given cycle. */
  predicate DueBy<T(==)>(q: seq<Entry<T>>, ev: T, cycles: int) {
    exists i :: 0 <= i < |q| && q[i].ev == ev && q[i].cycle <= cycles
  }

  lemma InsertedDueBy<T>(q: seq<Entry<T>>, e: Entry<T>, cycles: int)
    requires e.cycle <= cycles
    ensures DueBy(Insert(q, e), e.ev, cycles)
  {
    InsertSlot(q, e);
    assert Insert(q, e)[Slot(q, e.cycle)] == e;
  }

  /** The head of a sorted queue is due if any entry is. */
  lemma HeadIsDue<T>(c: Cpu<T>, ev: T)
    requires QueueOk(c.queue) && DueBy(c.queue, ev, c.clock.cycles)
    ensures Due(c)
  {
    var i :| 0 <= i < |c.queue| && c.queue[i].ev == ev && c.queue[i].cycle <= c.clock.cycles;
    assert i > 0 ==> c.queue[0].cycle <= c.queue[i].cycle;
  }

  /** A turn of an event that does not look ahead, or of another event, leaves the event due. */
  lemma TurnKeepsDueBy<T>(c: Cpu<T>, a: Action<T>, actions: seq<Action<T>>)
    requires QueueOk(c.queue) && DueBy(c.queue, a.ev, c.clock.cycles) && !a.Cancel? && !Future(c.clock, a)
    requires Due(c) && if c.queue[0].ev == a.ev then actions == [a] else !Names(actions, a.ev)
    ensures var c' := Fire(c, actions);
      QueueOk(c'.queue) && c'.clock == Sync(c.clock) && DueBy(c'.queue, a.ev, c'.clock.cycles)
  {
    FireTurn(c, [actions]);
    var popped := Cpu(Sync(c.clock), c.queue[1..]);
    assert QueueOk(popped.queue);
    if c.queue[0].ev == a.ev {
      assert ActAll(popped, [a]) == Act(popped, a);
      var e := if a.Schedule? then Entry(a.ev, a.cycle, 0) else Entry(a.ev, TargetCycle(popped.clock, a.ns), a.ns);
      InsertedDueBy(Remove(popped.queue, a.ev), e, c.clock.cycles);
    } else {
      var i :| 0 <= i < |c.queue| && c.queue[i].ev == a.ev && c.queue[i].cycle <= c.clock.cycles;
      assert popped.queue[i - 1] == c.queue[i];
      ActAllSpare(popped, actions, c.queue[i]);
    }
  }

  lemma {:induction false} NeverEnds<T(!new)>(c: Cpu<T>, a: Action<T>, others: T -> seq<Action<T>>, n: nat)
    requires QueueOk(c.queue) && DueBy(c.queue, a.ev, c.clock.cycles) && !a.Cancel? && !Future(c.clock, a)
    requires forall x :: !Names(others(x), a.ev)
    ensures var c' := Turns(c, a, others, n);
      && QueueOk(c'.queue) && DueBy(c'.queue, a.ev, c'.clock.cycles) && Due(c')
      && (c'.clock == c.clock || c'.clock == Sync(c.clock))
    decreases n
  {
    if n == 0 {
      HeadIsDue(c, a.ev);
    } else {
      NeverEnds(c, a, others, n - 1);
      var c1 := Turns(c, a, others, n - 1);
      var actions := Behaviour(c1.queue[0].ev, a, others);
      TurnKeepsDueBy(c1, a, actions);
      HeadIsDue(Fire(c1, actions), a.ev);
    }
  }

  lemma TurnShrinks<T>(c: Cpu<T>, actions: seq<Action<T>>, k: Clock)
    requires QueueOk(c.queue) && Due(c) && AllFuture(k, actions) && (c.clock == k || c.clock == Sync(k))
    ensures var c' := Fire(c, actions);
      && QueueOk(c'.queue) && c'.clock == Sync(k)
      && |DueEvents(c'.queue, c'.clock.cycles)| < |DueEvents(c.queue, c.clock.cycles)|
  {
    assert AllFuture(c.clock, actions);
    assert LooksAhead(c.clock, [actions]);
    FireShrinks(c, [actions]);
  }

  lemma {:induction false} EndsInTime<T(!new)>(c: Cpu<T>, a: Action<T>, others: T -> seq<Action<T>>, n: nat)
    requires QueueOk(c.queue) && Future(c.clock, a) && forall x :: AllFuture(c.clock, others(x))
    ensures var c' := Turns(c, a, others, n); var due := |DueEvents(c.queue, c.clock.cycles)|;
      && QueueOk(c'.queue) && (c'.clock == c.clock || c'.clock == Sync(c.clock))
      && (Due(c') ==> |DueEvents(c'.queue, c'.clock.cycles)| + n <= due)
    decreases n
  {
    if n > 0 {
      EndsInTime(c, a, others, n - 1);
      var c1 := Turns(c, a, others, n - 1);
      if Due(c1) {
        TurnShrinks(c1, Behaviour(c1.queue[0].ev, a, others), c.clock);
      }
    }
  }

  /**
   An event whose callback re-schedules it, among others that look ahead and leave it alone: the loop comes to an
   end if and only if the callback looks ahead too. Otherwise the event is due again after any number of turns.
   */
  lemma SelfRescheduling<T(!new)>(c: Cpu<T>, a: Action<T>, others: T -> seq<Action<T>>)
    requires QueueOk(c.queue) && DueBy(c.queue, a.ev, c.clock.cycles) && !a.Cancel?
    requires forall x :: AllFuture(c.clock, others(x)) && !Names(others(x), a.ev)
    ensures (exists n: nat :: !Due(Turns(c, a, others, n))) <==> Future(c.clock, a)
  {
    if Future(c.clock, a) {
      var n := |DueEvents(c.queue, c.clock.cycles)| + 1;
      EndsInTime(c, a, others, n);
      assert !Due(Turns(c, a, others, n));
    } else {
      forall n: nat ensures Due(Turns(c, a, others, n)) { NeverEnds(c, a, others, n); }
    }
  }
}
