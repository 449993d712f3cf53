/**
 The event queue as the CPU models use it: intrusive singly linked events, relinked in place, with the
 head's cycle cached for the instruction loop.
 */
module EventQueue {
  import opened CpuTime
  import opened EventQueueSpec

  class Event {
    var fireCycle: int
    var fireNs: int
    var next: Event?

    constructor ()
      ensures fireCycle == 0 && fireNs == 0 && next == null
    {
      fireCycle, fireNs, next := 0, 0, null;
    }
  }

  type Queue = seq<Entry<Event>>

  /** The list from `head` consists of the events of `q` in order, which are exactly `nodes`. */
  ghost predicate List(head: Event?, q: Queue, nodes: set<Event>)
    reads nodes
    decreases |q|
  {
    if q == [] then head == null && nodes == {}
    else
      && head == q[0].ev && head in nodes
      && head.fireCycle == q[0].cycle && head.fireNs == q[0].ns
      && List(head.next, q[1..], nodes - {head})
  }

  ghost function After(q: Queue, i: int): Event? {
    if 0 <= i + 1 < |q| then q[i + 1].ev else null
  }

  /** One event agrees with its entry and points to the next. */
  ghost predicate Agrees(q: Queue, i: nat)
    requires i < |q|
    reads q[i].ev
  {
    var e := q[i].ev;
    e.fireCycle == q[i].cycle && e.fireNs == q[i].ns && e.next == After(q, i)
  }

  ghost function Nodes(q: Queue): set<Event> {
    set i | 0 <= i < |q| :: q[i].ev
  }

  /** The same as `List`, event by event. */
  ghost predicate Pointwise(head: Event?, q: Queue)
    reads Nodes(q)
  {
    head == After(q, -1) && Distinct(q) && forall i :: 0 <= i < |q| ==> Agrees(q, i)
  }

  lemma {:induction false} ListIsPointwise(head: Event?, q: Queue, nodes: set<Event>)
    ensures List(head, q, nodes) <==> nodes == Nodes(q) && Pointwise(head, q)
    decreases |q|
  {
    if q != [] && head == q[0].ev {
      var e, rest := q[0].ev, q[1..];
      assert Nodes(q) == {e} + Nodes(rest);
      assert forall i :: 0 <= i < |rest| ==> rest[i] == q[i + 1] && After(rest, i) == After(q, i + 1);
      if nodes == Nodes(q) && Pointwise(head, q) {
        assert e !in Nodes(rest);
        assert nodes - {e} == Nodes(rest);
        assert Agrees(q, 0);
        forall i | 0 <= i < |rest| ensures Agrees(rest, i) {
          assert Agrees(q, i + 1);
        }
        ListIsPointwise(e.next, rest, nodes - {e});
      }
      if List(head, q, nodes) {
        ListIsPointwise(e.next, rest, nodes - {e});
        assert nodes == Nodes(q);
        forall i | 0 <= i < |q| ensures Agrees(q, i) {
          if i > 0 {
            assert Agrees(rest, i - 1);
          }
        }
        forall j | 0 < j < |q| ensures q[0].ev != q[j].ev {
          assert rest[j - 1].ev in Nodes(rest);
        }
      }
    }
  }

  /** Walks to the last event that does not fire later than `cycle`. */
  method FindPrevious(head: Event, ghost q: Queue, cycle: int) returns (prev: Event, ghost i: nat)
    requires Pointwise(head, q) && cycle >= head.fireCycle
    ensures i < |q| && prev == q[i].ev
    ensures Slot(q, cycle) == i + 1
  {
    prev := head;
    i := 0;
    assert Agrees(q, 0);
    while prev.next != null && prev.next.fireCycle <= cycle
      invariant i < |q| && prev == q[i].ev && Agrees(q, i)
      invariant forall j :: 0 <= j <= i ==> q[j].cycle <= cycle
      decreases |q| - i
    {
      prev := prev.next;
      i := i + 1;
      assert Agrees(q, i);
    }
    if i + 1 < |q| {
      assert Agrees(q, i + 1);
    }
    SlotIs(q, cycle, i + 1);
  }

  lemma {:induction false} SlotIs<T>(q: seq<Entry<T>>, cycle: int, k: nat)
    requires k <= |q| && (forall i :: 0 <= i < k ==> q[i].cycle <= cycle) && (k < |q| ==> cycle < q[k].cycle)
    ensures Slot(q, cycle) == k
  {
  }

  /** Links `ev` in at position `k`, behind `prev` unless it becomes the head. */
  method Splice(head: Event?, ghost q: Queue, ghost k: nat, prev: Event?, ev: Event) returns (head': Event)
    requires Pointwise(head, q) && ev !in Nodes(q) && k <= |q|
    requires prev == After(q[..k], k - 2)
    modifies Nodes(q)`next, ev`next
    ensures Pointwise(head', q[..k] + [Entry(ev, ev.fireCycle, ev.fireNs)] + q[k..])
  {
    ghost var e := Entry(ev, ev.fireCycle, ev.fireNs);
    ghost var r := q[..k] + [e] + q[k..];
    if prev == null {
      ev.next := head;
      head' := ev;
    } else {
      assert Agrees(q, k - 1);
      ev.next := prev.next;
      prev.next := ev;
      head' := head;
    }
    SpliceAt(q, k, e);
    SpliceDistinct(q, k, e);
    forall i | 0 <= i < |r| ensures Agrees(r, i) {
      if i < k {
        assert old(Agrees(q, i));
      } else if i > k {
        assert old(Agrees(q, i - 1));
      }
    }
  }

  /** Where entries and their successors end up when one is spliced in. */
  lemma {:induction false} SpliceAt(q: Queue, k: nat, e: Entry<Event>)
    requires k <= |q|
    ensures var r := q[..k] + [e] + q[k..];
      && |r| == |q| + 1 && r[k] == e && After(r, k) == After(q, k - 1)
      && (forall i :: 0 <= i < k ==> r[i] == q[i] && After(r, i) == if i + 1 == k then e.ev else After(q, i))
      && (forall i :: k < i < |r| ==> r[i] == q[i - 1] && After(r, i) == After(q, i - 1))
  {
  }

  lemma {:induction false} SpliceDistinct(q: Queue, k: nat, e: Entry<Event>)
    requires Distinct(q) && e.ev !in Nodes(q) && k <= |q|
    ensures Distinct(q[..k] + [e] + q[k..])
  {
    var r := q[..k] + [e] + q[k..];
    SpliceAt(q, k, e);
    forall i | 0 <= i < |q| ensures q[i].ev != e.ev {
      assert q[i].ev in Nodes(q);
    }
    forall i, j | 0 <= i < j < |r| ensures r[i].ev != r[j].ev {
      assert i < k || i == k || i > k;
    }
  }

  lemma {:induction false} SpliceNodes(q: Queue, k: nat, e: Entry<Event>)
    requires k <= |q|
    ensures Nodes(q[..k] + [e] + q[k..]) == Nodes(q) + {e.ev}
  {
    var r := q[..k] + [e] + q[k..];
    SpliceAt(q, k, e);
    forall x | x in Nodes(r) ensures x in Nodes(q) + {e.ev} {
      var i :| 0 <= i < |r| && r[i].ev == x;
    }
    forall x | x in Nodes(q) + {e.ev} ensures x in Nodes(r) {
      if x == e.ev {
        assert r[k].ev == x;
      } else {
        var i :| 0 <= i < |q| && q[i].ev == x;
        assert r[if i < k then i else i + 1].ev == x;
      }
    }
  }

  /** Links `ev` behind every event that does not fire later; the same code serves all three callers. */
  method Link(head: Event?, ghost q: Queue, ghost nodes: set<Event>, ev: Event) returns (head': Event)
    requires List(head, q, nodes) && ev !in nodes
    modifies nodes`next, ev`next
    ensures List(head', Insert(q, Entry(ev, ev.fireCycle, ev.fireNs)), nodes + {ev})
  {
    ListIsPointwise(head, q, nodes);
    ghost var k, e := Slot(q, ev.fireCycle), Entry(ev, ev.fireCycle, ev.fireNs);
    InsertSlot(q, e);
    SpliceNodes(q, k, e);
    if head == null || ev.fireCycle < head.fireCycle {
      assert q != [] ==> Agrees(q, 0);
      head' := Splice(head, q, 0, null, ev);
    } else {
      var prev;
      ghost var i;
      prev, i := FindPrevious(head, q, ev.fireCycle);
      head' := Splice(head, q, i + 1, prev, ev);
    }
    ListIsPointwise(head', q[..k] + [e] + q[k..], nodes + {ev});
  }

  ghost function Without(q: Queue, k: nat): Queue {
    if k < |q| then q[..k] + q[k + 1..] else q
  }

  /** `k` is where `ev` sits in the queue, or its length if it does not. */
  ghost predicate Position(q: Queue, ev: Event, k: nat) {
    if k < |q| then q[k].ev == ev else k == |q| && ev !in Nodes(q)
  }

  ghost function PositionOf(q: Queue, ev: Event): (k: nat)
    ensures Position(q, ev, k)
  {
    if q == [] || q[0].ev == ev then 0
    else
      assert Nodes(q) == {q[0].ev} + Nodes(q[1..]) by {
        SpliceNodes(q[1..], 0, q[0]);
        assert q[1..][..0] + [q[0]] + q[1..][0..] == q;
      }
      1 + PositionOf(q[1..], ev)
  }

  lemma {:induction false} WithoutAt(q: Queue, k: nat)
    requires k < |q|
    ensures var r := Without(q, k);
      && |r| == |q| - 1
      && (forall i :: 0 <= i < k ==> r[i] == q[i] && After(r, i) == if i + 1 == k then After(q, k) else After(q, i))
      && (forall i :: k <= i < |r| ==> r[i] == q[i + 1] && After(r, i) == After(q, i + 1))
  {
  }

  lemma {:induction false} WithoutKeeps(q: Queue, ev: Event, k: nat)
    requires Distinct(q) && Position(q, ev, k)
    ensures Distinct(Without(q, k)) && Remove(q, ev) == Without(q, k) && Nodes(Without(q, k)) == Nodes(q) - {ev}
  {
    var r := Without(q, k);
    if k == |q| {
      assert !Queued(q, ev);
      RemoveIs(q, ev, k);
    } else {
      RemoveIs(q, ev, k);
      WithoutAt(q, k);
      WithoutNodes(q, k);
      forall i, j | 0 <= i < j < |r| ensures r[i].ev != r[j].ev {
        assert i < k || i >= k;
      }
    }
  }

  lemma {:induction false} WithoutNodes(q: Queue, k: nat)
    requires Distinct(q) && k < |q|
    ensures Nodes(Without(q, k)) == Nodes(q) - {q[k].ev}
  {
    var r := Without(q, k);
    WithoutAt(q, k);
    forall x | x in Nodes(r) ensures x in Nodes(q) - {q[k].ev} {
      var i :| 0 <= i < |r| && r[i].ev == x;
      assert i < k || i >= k;
    }
    forall x | x in Nodes(q) - {q[k].ev} ensures x in Nodes(r) {
      var i :| 0 <= i < |q| && q[i].ev == x;
      assert r[if i < k then i else i - 1].ev == x;
    }
  }

  /** Takes `ev` out of the chain, if it is linked. */
  method Unlink(head: Event?, ghost q: Queue, ev: Event, ghost k: nat) returns (head': Event?)
    requires Pointwise(head, q) && Position(q, ev, k)
    modifies Nodes(q)`next
    ensures Pointwise(head', Without(q, k))
  {
    WithoutKeeps(q, ev, k);
    head' := head;
    if head == ev {
      assert Agrees(q, 0) && k == 0;
      head' := ev.next;
    } else {
      var prev := head;
      ghost var i := 0;
      while prev != null && prev.next != ev
        invariant i <= |q| && prev == After(q, i - 1)
        invariant i <= k && (i == k ==> k == |q|)
        decreases |q| - i
      {
        assert Agrees(q, i);
        prev := prev.next;
        i := i + 1;
      }
      if prev != null {
        assert Agrees(q, i) && k == i + 1 && Agrees(q, k);
        prev.next := ev.next;
      }
    }
    ghost var r := Without(q, k);
    if k < |q| {
      WithoutAt(q, k);
    }
    forall i | 0 <= i < |r| ensures Agrees(r, i) {
      if i < k {
        assert old(Agrees(q, i));
      } else {
        assert old(Agrees(q, i + 1));
      }
    }
  }

  /** Takes `ev` out of the list, wherever it is. */
  method Detach(head: Event?, ghost q: Queue, ghost nodes: set<Event>, ev: Event) returns (head': Event?)
    requires List(head, q, nodes)
    modifies nodes`next
    ensures List(head', Remove(q, ev), nodes - {ev})
  {
    ListIsPointwise(head, q, nodes);
    ghost var k := PositionOf(q, ev);
    WithoutKeeps(q, ev, k);
    head' := Unlink(head, q, ev, k);
    ListIsPointwise(head', Remove(q, ev), nodes - {ev});
  }

  /** Sets the fields of an event that is not in the list, which stays as it is. */
  method SetTimes(ev: Event, cycle: int, ns: int, ghost head: Event?, ghost q: Queue, ghost nodes: set<Event>)
    requires List(head, q, nodes) && ev !in nodes
    modifies ev
    ensures ev.fireCycle == cycle && ev.fireNs == ns && ev.next == null
    ensures List(head, q, nodes)
  {
    ev.fireCycle := cycle;
    ev.fireNs := ns;
    ev.next := null;
  }

  /** Recomputes the firing cycle of one event, if it has a deadline. */
  method RetargetOne(ev: Event, clock: Clock, ghost head: Event?, ghost q: Queue, ghost i: nat)
    requires Pointwise(head, q) && i < |q| && ev == q[i].ev
    modifies ev`fireCycle
    ensures Pointwise(head, q[i := Retarget(clock, q[i])])
  {
    assert Agrees(q, i);
    if ev.fireNs > 0 {
      var delta := ev.fireNs - clock.simNs;
      if delta < 0 {
        delta := 0;
      }
      ev.fireCycle := clock.cycles + NsToCycles(delta, clock.freq);
    }
    ghost var r := q[i := Retarget(clock, q[i])];
    assert forall j :: 0 <= j < |q| ==> r[j].ev == q[j].ev && After(r, j) == After(q, j);
    forall j | 0 <= j < |r| ensures Agrees(r, j) {
      assert old(Agrees(q, j));
    }
  }

  lemma {:induction false} SameNodes(q: Queue, r: Queue)
    requires |r| == |q| && forall i :: 0 <= i < |q| ==> r[i].ev == q[i].ev
    ensures Nodes(r) == Nodes(q)
  {
    forall x ensures x in Nodes(r) <==> x in Nodes(q) {
      if x in Nodes(q) {
        var j :| 0 <= j < |q| && q[j].ev == x;
        assert r[j].ev == x;
      }
    }
  }

  /** The loop that re-targets every event with a deadline. */
  method RetargetList(head: Event?, clock: Clock, ghost q: Queue, ghost nodes: set<Event>)
    requires List(head, q, nodes)
    modifies nodes`fireCycle
    ensures List(head, RetargetAll(clock, q), nodes)
  {
    ListIsPointwise(head, q, nodes);
    var ev := head;
    ghost var i, m := 0, q;
    while ev != null
      invariant i <= |q| && ev == After(q, i - 1)
      invariant |m| == |q| && Pointwise(head, m)
      invariant forall j :: 0 <= j < i ==> m[j] == Retarget(clock, q[j])
      invariant forall j :: i <= j < |q| ==> m[j] == q[j]
      decreases |q| - i
    {
      assert ev == q[i].ev && ev in Nodes(q);
      RetargetOne(ev, clock, head, m, i);
      m := m[i := Retarget(clock, m[i])];
      assert Agrees(m, i) && After(m, i) == After(q, i);
      ev := ev.next;
      i := i + 1;
    }
    assert m == RetargetAll(clock, q);
    SameNodes(q, m);
    ListIsPointwise(head, m, nodes);
  }

  /** Rebuilds the list by inserting its events one by one into an empty one. */
  method Rebuild(head: Event?, ghost q: Queue, ghost nodes: set<Event>) returns (head': Event?)
    requires List(head, q, nodes)
    modifies nodes`next
    ensures List(head', InsertAll([], q), nodes)
  {
    var oldQueue := head;
    head' := null;
    ghost var built, left, placed, rest := [], q, {}, nodes;
    while oldQueue != null
      invariant placed !! rest && placed + rest == nodes
      invariant List(head', built, placed) && List(oldQueue, left, rest)
      invariant InsertAll(built, left) == InsertAll([], q)
      decreases |left|
    {
      var e := oldQueue;
      ghost var entry := left[0];
      left, rest := left[1..], rest - {e};
      oldQueue := e.next;
      e.next := null;
      head' := Link(head', built, placed, e);
      built, placed := Insert(built, entry), placed + {e};
    }
  }

  ghost predicate Within(actions: seq<Action<Event>>, pool: set<Event>) {
    forall i :: 0 <= i < |actions| ==> actions[i].ev in pool
  }

  class CpuState {
    var cycles: int
    var freq: Hz
    var simNs: int
    var anchorCycles: int
    var anchorNs: int
    var eventQueue: Event?
    var nextEventCycle: int
    ghost var queue: Queue
    ghost var nodes: set<Event>

    /** What the machine of EventQueueSpec sees; that machine keeps the queue sorted. */
    ghost function View(): Cpu<Event>
      reads this
    {
      Cpu(Clock(cycles, freq, simNs, anchorCycles, anchorNs), queue)
    }

    /** The list is a proper chain; the cached deadline may be stale. */
    ghost predicate Linked()
      reads this, nodes
    {
      List(eventQueue, queue, nodes)
    }

    ghost predicate Valid()
      reads this, nodes
    {
      Linked() && nextEventCycle == NextCycle(queue)
    }

    constructor (freq: Hz)
      ensures Valid() && View() == Cpu(Clock(0, freq, 0, 0, 0), [])
    {
      cycles, this.freq, simNs, anchorCycles, anchorNs := 0, freq, 0, 0, 0;
      eventQueue, nextEventCycle, queue, nodes := null, INT64_MAX, [], {};
    }

    method CacheNext()
      requires Linked()
      modifies this`nextEventCycle
      ensures Valid()
    {
      nextEventCycle := if eventQueue != null then eventQueue.fireCycle else INT64_MAX;
    }

    method CancelEvent(ev: Event)
      requires Linked()
      modifies this`eventQueue, this`nextEventCycle, this`queue, this`nodes, nodes`next, ev
      ensures Valid() && View() == Act(old(View()), Cancel(ev)) && nodes == old(nodes) - {ev}
    {
      eventQueue := Detach(eventQueue, queue, nodes, ev);
      queue, nodes := Remove(queue, ev), nodes - {ev};
      SetTimes(ev, ev.fireCycle, 0, eventQueue, queue, nodes);
      CacheNext();
    }

    /** Links an event that is in no queue and already has its times set. */
    method Enqueue(ev: Event)
      requires Linked() && ev !in nodes
      modifies this`eventQueue, this`nextEventCycle, this`queue, this`nodes, nodes`next, ev`next
      ensures Valid() && nodes == old(nodes) + {ev}
      ensures View() == old(View()).(queue := Insert(old(queue), Entry(ev, ev.fireCycle, ev.fireNs)))
    {
      ghost var e := Entry(ev, ev.fireCycle, ev.fireNs);
      InsertSlot(queue, e);
      eventQueue := Link(eventQueue, queue, nodes, ev);
      queue, nodes := Insert(queue, e), nodes + {ev};
      nextEventCycle := eventQueue.fireCycle;
    }

    method ScheduleEvent(ev: Event, cycle: int)
      requires Linked()
      modifies this`eventQueue, this`nextEventCycle, this`queue, this`nodes, nodes`next, ev
      ensures Valid() && View() == Act(old(View()), Schedule(ev, cycle)) && nodes == old(nodes) + {ev}
    {
      CancelEvent(ev);
      SetTimes(ev, cycle, 0, eventQueue, queue, nodes);
      Enqueue(ev);
    }

    method ScheduleEventNs(ev: Event, fireNs: int)
      requires Linked()
      modifies this`eventQueue, this`nextEventCycle, this`queue, this`nodes, nodes`next, ev
      ensures Valid() && View() == Act(old(View()), ScheduleNs(ev, fireNs)) && nodes == old(nodes) + {ev}
    {
      CancelEvent(ev);
      var delta := fireNs - simNs;
      if delta < 0 {
        delta := 0;
      }
      SetTimes(ev, cycles + NsToCycles(delta, freq), fireNs, eventQueue, queue, nodes);
      Enqueue(ev);
    }

    method SyncClock()
      modifies this`simNs
      ensures View() == old(View()).(clock := Sync(old(View()).clock))
    {
      if freq > 0 {
        simNs := anchorNs + CyclesToNs(cycles - anchorCycles, freq);
      }
    }

    /** Settles the time spent at the old frequency and counts from here at the new one. */
    method Reanchor(freqHz: Hz) returns (clock: Clock)
      modifies this`simNs, this`anchorCycles, this`anchorNs, this`freq
      ensures clock == Reclock(old(View()).clock, freqHz) && View() == old(View()).(clock := clock)
    {
      SyncClock();
      anchorCycles := cycles;
      anchorNs := simNs;
      freq := freqHz;
      clock := Clock(cycles, freq, simNs, anchorCycles, anchorNs);
    }

    method SetFrequency(freqHz: Hz)
      requires Valid()
      modifies this, nodes
      ensures Valid() && View() == ChangeFrequency(old(View()), freqHz) && nodes == old(nodes)
    {
      if freqHz == 0 {
        return;
      }
      var clock := Reanchor(freqHz);
      RetargetList(eventQueue, clock, queue, nodes);
      queue := RetargetAll(clock, queue);
      eventQueue := Rebuild(eventQueue, queue, nodes);
      queue := InsertAll([], queue);
      CacheNext();
    }

    /** The body of a callback: a sequence of scheduling calls on events of `pool`. */
    method Perform(actions: seq<Action<Event>>, ghost pool: set<Event>)
      requires Linked() && nodes <= pool && Within(actions, pool)
      modifies this`eventQueue, this`nextEventCycle, this`queue, this`nodes, pool
      ensures Linked() && nodes <= pool && View() == ActAll(old(View()), actions)
    {
      var i := 0;
      while i < |actions|
        invariant i <= |actions| && Linked() && nodes <= pool
        invariant ActAll(View(), actions[i..]) == ActAll(old(View()), actions)
      {
        var a := actions[i];
        assert actions[i..][1..] == actions[i + 1..];
        match a {
          case Schedule(ev, cycle) => ScheduleEvent(ev, cycle);
          case ScheduleNs(ev, ns) => ScheduleEventNs(ev, ns);
          case Cancel(ev) => CancelEvent(ev);
        }
        i := i + 1;
      }
    }

    /** Takes the head off the list and clears its links. */
    method Pop() returns (ev: Event)
      requires Linked() && eventQueue != null
      modifies this`eventQueue, this`queue, this`nodes, eventQueue
      ensures Linked() && View() == old(View()).(queue := old(queue)[1..])
      ensures ev == old(queue)[0].ev && nodes == old(nodes) - {ev}
    {
      ev := eventQueue;
      eventQueue := ev.next;
      queue, nodes := queue[1..], nodes - {ev};
      SetTimes(ev, ev.fireCycle, 0, eventQueue, queue, nodes);
    }

    /** One turn of the execution loop. */
    method FireHead(actions: seq<Action<Event>>, ghost pool: set<Event>) returns (ev: Event)
      requires Linked() && eventQueue != null && nodes <= pool
      requires Within(actions, pool)
      modifies this, pool
      ensures Linked() && nodes <= pool && View() == Fire(old(View()), actions) && ev == old(queue)[0].ev
    {
      ev := Pop();
      SyncClock();
      Perform(actions, pool);
    }

    /**
     Fires every due event. `script[k]` is what the k-th callback does, any sequence of scheduling and cancelling
     calls. The script is finite: this is the loop for callbacks that stop scheduling at or before the current cycle.
     */
    method ExecuteEvents(script: seq<seq<Action<Event>>>, ghost pool: set<Event>) returns (fired: seq<Event>)
      requires Valid() && QueueOk(queue)
      requires nodes <= pool && forall k :: 0 <= k < |script| ==> Within(script[k], pool)
      modifies this, pool
      ensures Valid() && var r := Exec(old(View()), script); View() == r.0 && fired == r.1
    {
      fired := [];
      var left: seq<seq<Action<Event>>> := script;
      ghost var r := Exec(View(), script);
      assert fired + r.1 == r.1;
      while eventQueue != null && cycles >= eventQueue.fireCycle
        invariant Linked() && nodes <= pool && Reached(r, View(), left, fired)
        invariant forall k :: 0 <= k < |left| ==> Within(left[k], pool)
        decreases |left|, |DueEvents(queue, cycles)|
      {
        ReachedTurn(r, View(), left, fired);
        var ev := FireHead(First(left), pool);
        left := Rest(left);
        fired := fired + [ev];
      }
      ReachedEnd(r, View(), left, fired);
      CacheNext();
    }
  }
}
