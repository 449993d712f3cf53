/**
 The CBOR writer as a state machine over its interface calls, and what every run of it means.

 `State`/`Step` say what one call does to the bytes and to the stack of nesting records
 (the class in CborWriter.dfy is proved to do exactly this). `Doc`/`DocStep` is the meaning:
 a stack of containers holding complete data items. The simulation theorem connects the two
 for every sequence of calls.
 */
module CborWriterSpec {
  import opened Bytes
  import opened CborFormat
  import opened CborReaderSpec

  /** One call of the writer's interface. */
  datatype Call =
    | WriteUnsigned(n: u64)
    | WriteSigned(v: i64)
    | WriteData(data: seq<byte>)
    | WriteText(text: seq<byte>)
    | WriteSimple(value: SimpleValue)
    | WriteObject(encoded: seq<byte>)
    | Open(kind: Kind)
    | Close(kind: Kind)
    | BreakWriter

  datatype Kind = Bytes | List | Dict

  function KindByte(kind: Kind): (b: byte)
    ensures IsMajor(b)
  {
    match kind
    case Bytes => BYTE_STRING
    case List => ARRAY
    case Dict => MAP
  }

  /** A nesting record: where the container's contents start and how many objects it holds. */
  datatype Record = Record(start: int, objects: nat)

  /** The innermost open record comes first. Nothing is observable of a broken writer. */
  datatype State = Broken | Live(out: seq<byte>, open: seq<Record>)

  datatype Config = Config(capacity: nat, maxNesting: nat)

  const INITIAL := Live([], [])

  // ---- what one call does ----

  function Count(open: seq<Record>): seq<Record> {
    if open == [] then [] else [open[0].(objects := open[0].objects + 1)] + open[1..]
  }

  /** Appends `bytes` as one object of the innermost container, or breaks if they do not fit. */
  function Append(c: Config, s: State, bytes: seq<byte>): State {
    if s.Live? && |s.out| + |bytes| <= c.capacity then Live(s.out + bytes, Count(s.open)) else Broken
  }

  function OpenStep(c: Config, s: State, kind: Kind): State {
    if s.Broken? || |s.open| >= c.maxNesting then Broken
    else
      match Append(c, s, [KindByte(kind)])
      case Broken => Broken
      case Live(out, open) => Live(out, [Record(|out|, 0)] + open)
  }

  /** Replaces the initial byte in front of `start` by the head that carries `value`. */
  function InsertUnsigned(c: Config, s: State, start: int, value: nat): State {
    if s.Broken? || !(1 <= start <= |s.out|) || |s.out| + ExtraBytes(value) > c.capacity then Broken
    else if !IsMajor(s.out[start - 1]) then Broken
    else Live(s.out[..start - 1] + Head(s.out[start - 1], value) + s.out[start..], s.open)
  }

  function CloseStep(c: Config, s: State, kind: Kind): State {
    if s.Broken? || s.open == [] then Broken
    else
      var r := s.open[0];
      var value := match kind case Bytes => |s.out| - r.start case List => r.objects case Dict => r.objects / 2;
      if value < 0 || (kind.Dict? && r.objects % 2 == 1) then Broken
      else
        match InsertUnsigned(c, s, r.start, value)
        case Broken => Broken
        case Live(out, open) => Live(out, s.open[1..])
  }

  function Step(c: Config, s: State, call: Call): State {
    match call
    case WriteUnsigned(n) => Append(c, s, Head(UNSIGNED, n))
    case WriteSigned(v) => Append(c, s, if v >= 0 then Head(UNSIGNED, v) else Head(SIGNED, -1 - v))
    case WriteData(data) => Append(c, s, Head(BYTE_STRING, |data|) + data)
    case WriteText(text) => Append(c, s, Head(TEXT_STRING, |text|) + text)
    case WriteSimple(value) => Append(c, s, [SimpleByte(value)])
    case WriteObject(encoded) => if encoded == [] then s else Append(c, s, encoded)
    case Open(kind) => OpenStep(c, s, kind)
    case Close(kind) => CloseStep(c, s, kind)
    case BreakWriter => Broken
  }

  function Run(c: Config, s: State, calls: seq<Call>): State
    decreases |calls|
  {
    if calls == [] then s else Run(c, Step(c, s, calls[0]), calls[1..])
  }

  /** The value `cbor_end_writer` reports. */
  function EndWriter(s: State): nat {
    if s.Live? && s.open == [] then |s.out| else 0
  }

  // ---- invariants of every run, well-formed or not ----

  /**
   Bytes never exceed the capacity, open records never exceed the nesting limit, record starts
   are strictly ordered by nesting, and each start is preceded by a bare initial byte.
   */
  ghost predicate Inv(c: Config, s: State) {
    s.Live? ==> |s.out| <= c.capacity && |s.open| <= c.maxNesting && RecordsOk(s.out, s.open, 0)
  }

  /** `pending` is 1 when an inner container, already counted, is still open. */
  ghost predicate RecordsOk(out: seq<byte>, open: seq<Record>, pending: nat)
    decreases |open|
  {
    open == [] ||
    (var r := open[0];
     1 <= r.start <= |out| && IsMajor(out[r.start - 1]) && r.objects <= |out| - r.start + pending &&
     RecordsOk(out[..r.start - 1], open[1..], 1))
  }

  lemma RecordsOkExtend(out: seq<byte>, more: seq<byte>, open: seq<Record>)
    requires RecordsOk(out, open, 0) && |more| >= 1
    ensures RecordsOk(out + more, Count(open), 0)
  {
    if open != [] {
      assert (out + more)[..open[0].start - 1] == out[..open[0].start - 1];
      assert Count(open)[1..] == open[1..];
    }
  }

  lemma OpenKeepsRecords(out: seq<byte>, b: byte, open: seq<Record>)
    requires RecordsOk(out, open, 0) && IsMajor(b)
    ensures RecordsOk(out + [b], [Record(|out| + 1, 0)] + Count(open), 0)
  {
    assert (out + [b])[..|out|] == out;
    assert ([Record(|out| + 1, 0)] + Count(open))[1..] == Count(open);
    if open != [] {
      assert Count(open)[1..] == open[1..];
    }
  }

  /** The bytes in front of the innermost header, and so every outer record and header, stay put. */
  lemma CloseKeepsOuter(c: Config, s: State, kind: Kind)
    requires Inv(c, s) && CloseStep(c, s, kind).Live?
    ensures var s' := CloseStep(c, s, kind);
      && s.open != [] && s'.open == s.open[1..]
      && var k := s.open[0].start;
      && k <= |s'.out| && s'.out[..k - 1] == s.out[..k - 1] && s'.out[|s'.out| - (|s.out| - k)..] == s.out[k..]
    ensures Inv(c, CloseStep(c, s, kind))
  {
    var s' := CloseStep(c, s, kind);
    var k := s.open[0].start;
    var open := s.open[1..];
    assert RecordsOk(s.out[..k - 1], open, 1);
    if open != [] {
      assert s.out[..k - 1][..open[0].start - 1] == s.out[..open[0].start - 1];
      assert s'.out[..open[0].start - 1] == s.out[..open[0].start - 1];
      assert s'.out[open[0].start - 1] == s.out[open[0].start - 1];
    }
  }

  /** Every call keeps the invariant, and a broken writer stays broken. */
  lemma StepKeepsInv(c: Config, s: State, call: Call)
    requires Inv(c, s)
    ensures Inv(c, Step(c, s, call))
    ensures s.Broken? ==> Step(c, s, call).Broken?
  {
    if s.Live? && Step(c, s, call).Live? {
      match call
      case Open(kind) => OpenKeepsRecords(s.out, KindByte(kind), s.open);
      case Close(kind) => CloseKeepsOuter(c, s, kind);
      case WriteObject(_) =>
        if call.encoded != [] {
          RecordsOkExtend(s.out, call.encoded, s.open);
        }
      case BreakWriter =>
      case _ =>
        var more := Step(c, s, call).out[|s.out|..];
        assert Step(c, s, call).out == s.out + more;
        RecordsOkExtend(s.out, more, s.open);
    }
  }

  lemma {:induction false} RunKeepsInv(c: Config, s: State, calls: seq<Call>)
    requires Inv(c, s)
    ensures Inv(c, Run(c, s, calls))
    ensures s.Broken? ==> Run(c, s, calls).Broken?
    decreases |calls|
  {
    if calls != [] {
      StepKeepsInv(c, s, calls[0]);
      RunKeepsInv(c, Step(c, s, calls[0]), calls[1..]);
    }
  }

  // ---- the meaning of a run: containers of complete items ----

  datatype Frame = Frame(kind: Kind, items: seq<Item>)

  /** `done` are the complete top-level items; the innermost open container comes first. */
  datatype Doc = Doc(done: seq<Item>, open: seq<Frame>)

  /**
   `Reject`: the writer must report an error. `Misuse`: the caller closed a container by the wrong
   name or passed an object that is not one encoded item; the writer does not notice either.
   */
  datatype Outcome = Ok(doc: Doc) | Reject | Misuse

  function AddItem(d: Doc, item: Item): Doc {
    if d.open == [] then d.(done := d.done + [item])
    else d.(open := [d.open[0].(items := d.open[0].items + [item])] + d.open[1..])
  }

  /** The item a container becomes when it is closed. */
  function Closed(f: Frame): Item {
    match f.kind
    case Bytes => ByteString(EncodeAll(f.items))
    case List => Array(f.items)
    case Dict => Map(f.items)
  }

  function SignedItem(v: i64): Item {
    if v >= 0 then Unsigned(v) else Negative(-1 - v)
  }

  ghost predicate IsEncodingOf(encoded: seq<byte>, item: Item) {
    Writable(item) && Encode(item) == encoded && |encoded| < TWO_64
  }

  ghost function DocStep(c: Config, d: Doc, call: Call): Outcome {
    match call
    case WriteUnsigned(n) => Ok(AddItem(d, Unsigned(n)))
    case WriteSigned(v) => Ok(AddItem(d, SignedItem(v)))
    case WriteData(data) => Ok(AddItem(d, ByteString(data)))
    case WriteText(text) => Ok(AddItem(d, TextString(text)))
    case WriteSimple(value) => Ok(AddItem(d, Simple(value)))
    case WriteObject(encoded) =>
      if encoded == [] then Ok(d)
      else if exists item :: IsEncodingOf(encoded, item) then
        var item :| IsEncodingOf(encoded, item);
        Ok(AddItem(d, item))
      else Misuse
    case Open(kind) => if |d.open| >= c.maxNesting then Reject else Ok(Doc(d.done, [Frame(kind, [])] + d.open))
    case Close(kind) =>
      if d.open == [] then Reject
      else if d.open[0].kind != kind then Misuse
      else if kind.Dict? && |d.open[0].items| % 2 == 1 then Reject
      else Ok(AddItem(Doc(d.done, d.open[1..]), Closed(d.open[0])))
    case BreakWriter => Reject
  }

  /** The first call that is rejected or a misuse decides; later calls no longer matter. */
  ghost function DocRun(c: Config, d: Doc, calls: seq<Call>): Outcome
    decreases |calls|
  {
    if calls == [] then Ok(d)
    else match DocStep(c, d, calls[0])
      case Ok(d') => DocRun(c, d', calls[1..])
      case other => other
  }

  /** The bytes of a document whose open containers still have bare initial bytes. */
  function Layout(d: Doc): seq<byte>
    decreases |d.open|
  {
    if d.open == [] then EncodeAll(d.done)
    else Layout(Doc(d.done, d.open[1..])) + [KindByte(d.open[0].kind)] + EncodeAll(d.open[0].items)
  }

  /** The writer's records describe exactly the open containers of `d`. */
  ghost predicate Describes(d: Doc, open: seq<Record>, pending: nat)
    decreases |d.open|
  {
    |open| == |d.open| &&
    (open == [] ||
     (var outer := Doc(d.done, d.open[1..]);
      open[0] == Record(|Layout(outer)| + 1, |d.open[0].items| + pending) && Describes(outer, open[1..], 1)))
  }

  ghost predicate Simulates(d: Doc, s: State) {
    s.Live? && s.out == Layout(d) && Describes(d, s.open, 0)
  }

  ghost predicate WritableDoc(d: Doc) {
    AllWritable(d.done) && forall k :: 0 <= k < |d.open| ==> AllWritable(d.open[k].items)
  }

  lemma LayoutAddItem(d: Doc, item: Item)
    ensures Layout(AddItem(d, item)) == Layout(d) + Encode(item)
  {
    if d.open == [] {
      EncodeAllAppend(d.done, item);
    } else {
      EncodeAllAppend(d.open[0].items, item);
      assert AddItem(d, item).open[1..] == d.open[1..];
    }
  }

  /** Writing one item's encoding is adding that item. */
  lemma AppendSimulates(c: Config, d: Doc, s: State, item: Item)
    requires Simulates(d, s)
    ensures var d' := AddItem(d, item); var s' := Append(c, s, Encode(item));
      if |Layout(d')| <= c.capacity then Simulates(d', s') else s'.Broken?
  {
    LayoutAddItem(d, item);
    if d.open != [] {
      assert AddItem(d, item).open[1..] == d.open[1..];
      assert Count(s.open)[1..] == s.open[1..];
    }
  }

  lemma OpenSimulates(c: Config, d: Doc, s: State, kind: Kind)
    requires Simulates(d, s) && |d.open| < c.maxNesting
    ensures var d' := Doc(d.done, [Frame(kind, [])] + d.open); var s' := OpenStep(c, s, kind);
      if |Layout(d')| <= c.capacity then Simulates(d', s') else s'.Broken?
  {
    var d' := Doc(d.done, [Frame(kind, [])] + d.open);
    assert d'.open[1..] == d.open;
    assert Doc(d'.done, d'.open[1..]) == d;
    assert Layout(d') == Layout(d) + [KindByte(kind)];
    var s' := OpenStep(c, s, kind);
    if s'.Live? {
      assert s'.open[1..] == Count(s.open);
      if s.open != [] {
        assert Count(s.open)[1..] == s.open[1..];
      }
    }
  }

  /** The number a close call of the given kind writes into the head of a container. */
  function HeadValue(kind: Kind, items: seq<Item>): nat {
    match kind
    case Bytes => |EncodeAll(items)|
    case List => |items|
    case Dict => |items| / 2
  }

  /** What is behind a simulated writer's innermost record: the bare initial byte, then the contents. */
  lemma InnermostBytes(d: Doc, s: State)
    requires Simulates(d, s) && d.open != []
    ensures var outer := Doc(d.done, d.open[1..]); var start := s.open[0].start;
      && start == |Layout(outer)| + 1 <= |s.out| && s.open[0].objects == |d.open[0].items|
      && s.out[..start - 1] == Layout(outer) && s.out[start - 1] == KindByte(d.open[0].kind)
      && s.out[start..] == EncodeAll(d.open[0].items)
      && Describes(outer, s.open[1..], 1)
  {
  }

  lemma EncodeClosed(f: Frame)
    ensures Encode(Closed(f)) == Head(KindByte(f.kind), HeadValue(f.kind, f.items)) + EncodeAll(f.items)
  {
  }

  lemma CountedInOuter(outer: Doc, item: Item, open: seq<Record>)
    requires Describes(outer, open, 1)
    ensures Describes(AddItem(outer, item), open, 0)
  {
    if outer.open != [] {
      assert AddItem(outer, item).open[1..] == outer.open[1..];
    }
  }

  /** Closing back-patches the initial byte into the head of the finished container. */
  lemma CloseSimulates(c: Config, d: Doc, s: State, kind: Kind)
    requires Simulates(d, s) && d.open != [] && d.open[0].kind == kind
    requires kind.Dict? ==> |d.open[0].items| % 2 == 0
    ensures var d' := AddItem(Doc(d.done, d.open[1..]), Closed(d.open[0])); var s' := CloseStep(c, s, kind);
      if |Layout(d')| <= c.capacity then Simulates(d', s') else s'.Broken?
  {
    var outer, f := Doc(d.done, d.open[1..]), d.open[0];
    var base, head, body := Layout(outer), Head(KindByte(kind), HeadValue(kind, f.items)), EncodeAll(f.items);
    InnermostBytes(d, s);
    LayoutAddItem(outer, Closed(f));
    EncodeClosed(f);
    assert base + (head + body) == base + head + body;
    CountedInOuter(outer, Closed(f), s.open[1..]);
  }

  /** One call: the writer follows the document if its bytes fit, and breaks otherwise. */
  lemma StepSimulates(c: Config, d: Doc, s: State, call: Call)
    requires Simulates(d, s) && !DocStep(c, d, call).Misuse?
    requires |Layout(d)| <= c.capacity
    ensures var o := DocStep(c, d, call); var s' := Step(c, s, call);
      if o.Ok? && |Layout(o.doc)| <= c.capacity then Simulates(o.doc, s') else s'.Broken?
  {
    var o := DocStep(c, d, call);
    match call
    case WriteUnsigned(n) => AppendSimulates(c, d, s, Unsigned(n));
    case WriteSigned(v) => AppendSimulates(c, d, s, SignedItem(v));
    case WriteData(data) => AppendSimulates(c, d, s, ByteString(data));
    case WriteText(text) => AppendSimulates(c, d, s, TextString(text));
    case WriteSimple(value) => AppendSimulates(c, d, s, Simple(value));
    case WriteObject(encoded) =>
      if encoded != [] {
        var item :| IsEncodingOf(encoded, item) && o.doc == AddItem(d, item);
        AppendSimulates(c, d, s, item);
      }
    case Open(kind) => if o.Ok? { OpenSimulates(c, d, s, kind); }
    case Close(kind) => if o.Ok? { CloseSimulates(c, d, s, kind); }
    case BreakWriter =>
  }

  // ---- every run ----

  lemma {:induction false} BrokenAbsorbs(c: Config, calls: seq<Call>)
    ensures Run(c, Broken, calls) == Broken
    decreases |calls|
  {
    if calls != [] {
      BrokenAbsorbs(c, calls[1..]);
    }
  }

  /** Documents only grow, so bytes that do not fit at some point never fit later. */
  lemma {:induction false} DocRunGrows(c: Config, d: Doc, calls: seq<Call>)
    ensures var o := DocRun(c, d, calls); o.Ok? ==> |Layout(d)| <= |Layout(o.doc)|
    decreases |calls|
  {
    if calls != [] && DocStep(c, d, calls[0]).Ok? {
      var d' := DocStep(c, d, calls[0]).doc;
      if calls[0].Open? {
        assert Doc(d'.done, d'.open[1..]) == d;
      } else if calls[0].Close? {
        LayoutAddItem(Doc(d.done, d.open[1..]), Closed(d.open[0]));
      } else if d' != d {
        var item :| d' == AddItem(d, item);
        LayoutAddItem(d, item);
      }
      DocRunGrows(c, d', calls[1..]);
    }
  }

  /**
   The simulation theorem. For every sequence of calls that is no misuse, the writer is live exactly
   when no call was rejected and the document's bytes fit, and then it holds exactly those bytes.
   */
  lemma {:induction false} RunSimulates(c: Config, d: Doc, s: State, calls: seq<Call>)
    requires Simulates(d, s) && |Layout(d)| <= c.capacity
    requires !DocRun(c, d, calls).Misuse?
    ensures var o := DocRun(c, d, calls); var s' := Run(c, s, calls);
      if o.Ok? && |Layout(o.doc)| <= c.capacity then Simulates(o.doc, s') else s'.Broken?
    decreases |calls|
  {
    if calls != [] {
      var o := DocStep(c, d, calls[0]);
      StepSimulates(c, d, s, calls[0]);
      if o.Ok? && |Layout(o.doc)| <= c.capacity {
        RunSimulates(c, o.doc, Step(c, s, calls[0]), calls[1..]);
      } else {
        BrokenAbsorbs(c, calls[1..]);
        if o.Ok? {
          DocRunGrows(c, o.doc, calls[1..]);
        }
      }
    }
  }

  const EMPTY := Doc([], [])

  /** What `cbor_end_writer` reports after any run from a fresh writer, and which bytes it vouches for. */
  lemma EndOfRun(c: Config, calls: seq<Call>)
    requires !DocRun(c, EMPTY, calls).Misuse?
    ensures var o := DocRun(c, EMPTY, calls); var s := Run(c, INITIAL, calls);
      if o.Ok? && o.doc.open == [] && |EncodeAll(o.doc.done)| <= c.capacity
      then s == Live(EncodeAll(o.doc.done), []) && EndWriter(s) == |EncodeAll(o.doc.done)|
      else EndWriter(s) == 0
  {
    RunSimulates(c, EMPTY, INITIAL, calls);
  }

  // ---- whole trees ----

  /** How a caller writes one item: by its write call, as an encoded object, or by opening a container. */
  datatype Plan =
    | Scalar(call: Call)
    | Encoded(item: Item)
    | Container(kind: Kind, parts: seq<Plan>)

  ghost predicate ValidPlan(p: Plan)
    decreases p
  {
    match p
    case Scalar(call) =>
      call.WriteUnsigned? || call.WriteSigned? || call.WriteData? || call.WriteText? || call.WriteSimple?
    case Encoded(item) => IsEncodingOf(Encode(item), item)
    case Container(kind, parts) => (kind.Dict? ==> |parts| % 2 == 0) && AllValid(parts)
  }

  ghost predicate AllValid(parts: seq<Plan>)
    decreases parts
  {
    parts == [] || (ValidPlan(parts[0]) && AllValid(parts[1..]))
  }

  function Calls(p: Plan): seq<Call>
    decreases p
  {
    match p
    case Scalar(call) => [call]
    case Encoded(item) => [WriteObject(Encode(item))]
    case Container(kind, parts) => [Open(kind)] + CallsAll(parts) + [Close(kind)]
  }

  function CallsAll(parts: seq<Plan>): seq<Call>
    decreases parts
  {
    if parts == [] then [] else Calls(parts[0]) + CallsAll(parts[1..])
  }

  /** The item a plan stands for. */
  ghost function Denotes(p: Plan): Item
    requires ValidPlan(p)
    decreases p
  {
    match p
    case Scalar(WriteUnsigned(n)) => Unsigned(n)
    case Scalar(WriteSigned(v)) => SignedItem(v)
    case Scalar(WriteData(data)) => ByteString(data)
    case Scalar(WriteText(text)) => TextString(text)
    case Scalar(WriteSimple(value)) => Simple(value)
    case Encoded(item) => item
    case Container(kind, parts) => Closed(Frame(kind, DenotesAll(parts)))
  }

  ghost function DenotesAll(parts: seq<Plan>): (items: seq<Item>)
    requires AllValid(parts)
    ensures |items| == |parts|
    decreases parts
  {
    if parts == [] then [] else [Denotes(parts[0])] + DenotesAll(parts[1..])
  }

  /** How many containers a plan holds open at once. */
  function Depth(p: Plan): nat
    decreases p
  {
    match p
    case Container(_, parts) => 1 + DepthAll(parts)
    case _ => 0
  }

  function DepthAll(parts: seq<Plan>): nat
    decreases parts
  {
    if parts == [] then 0
    else var a, b := Depth(parts[0]), DepthAll(parts[1..]); if a >= b then a else b
  }

  lemma {:induction false} DocRunConcat(c: Config, d: Doc, a: seq<Call>, b: seq<Call>)
    ensures DocRun(c, d, a + b) ==
      match DocRun(c, d, a) case Ok(d') => DocRun(c, d', b) case other => other
    decreases |a|
  {
    if a == [] {
      assert a + b == b;
    } else {
      assert (a + b)[1..] == a[1..] + b;
      if DocStep(c, d, a[0]).Ok? {
        DocRunConcat(c, DocStep(c, d, a[0]).doc, a[1..], b);
      }
    }
  }

  lemma AddsDenoted(c: Config, d: Doc, p: Plan)
    requires ValidPlan(p) && !p.Container?
    ensures DocRun(c, d, Calls(p)) == Ok(AddItem(d, Denotes(p)))
  {
    var call := Calls(p)[0];
    assert Calls(p)[1..] == [];
    if p.Encoded? {
      assert IsEncodingOf(call.encoded, p.item);
      forall item | IsEncodingOf(call.encoded, item) ensures item == p.item {
        assert Encode(item) == Encode(p.item) + [];
        EncodeInjective(item, p.item, []);
      }
    }
    assert DocStep(c, d, call) == Ok(AddItem(d, Denotes(p)));
  }

  /** Driving one plan adds exactly the item it stands for, or is rejected for nesting too deep. */
  lemma {:induction false} PlanRuns(c: Config, d: Doc, p: Plan)
    requires ValidPlan(p) && |d.open| <= c.maxNesting
    ensures DocRun(c, d, Calls(p)) ==
      if |d.open| + Depth(p) <= c.maxNesting then Ok(AddItem(d, Denotes(p))) else Reject
    decreases p, 0
  {
    if p.Container? {
      var body := CallsAll(p.parts) + [Close(p.kind)];
      assert Calls(p) == [Open(p.kind)] + body;
      assert Calls(p)[1..] == body;
      if |d.open| < c.maxNesting {
        var f := Frame(p.kind, []);
        var d1 := Doc(d.done, [f] + d.open);
        assert DocStep(c, d, Open(p.kind)) == Ok(d1);
        PartsRun(c, d, f, p.parts);
        DocRunConcat(c, d1, CallsAll(p.parts), [Close(p.kind)]);
        if |d.open| + Depth(p) <= c.maxNesting {
          assert f.items + DenotesAll(p.parts) == DenotesAll(p.parts);
          var d2 := Doc(d.done, [Frame(p.kind, DenotesAll(p.parts))] + d.open);
          assert d2.open[1..] == d.open && Doc(d2.done, d2.open[1..]) == d;
          assert DocRun(c, d2, [Close(p.kind)]) == DocStep(c, d2, Close(p.kind));
        }
      }
    } else {
      AddsDenoted(c, d, p);
    }
  }

  lemma {:induction false} PartsRun(c: Config, outer: Doc, f: Frame, parts: seq<Plan>)
    requires AllValid(parts) && |outer.open| < c.maxNesting
    ensures DocRun(c, Doc(outer.done, [f] + outer.open), CallsAll(parts)) ==
      if |outer.open| + 1 + DepthAll(parts) <= c.maxNesting
      then Ok(Doc(outer.done, [Frame(f.kind, f.items + DenotesAll(parts))] + outer.open)) else Reject
    decreases parts, 1
  {
    var d := Doc(outer.done, [f] + outer.open);
    if parts == [] {
      assert f.items + [] == f.items;
    } else {
      PlanRuns(c, d, parts[0]);
      DocRunConcat(c, d, Calls(parts[0]), CallsAll(parts[1..]));
      if |d.open| + Depth(parts[0]) <= c.maxNesting {
        var f' := Frame(f.kind, f.items + [Denotes(parts[0])]);
        assert AddItem(d, Denotes(parts[0])) == Doc(outer.done, [f'] + outer.open);
        PartsRun(c, outer, f', parts[1..]);
        assert f'.items + DenotesAll(parts[1..]) == f.items + DenotesAll(parts);
      }
    }
  }

  lemma {:induction false} DenotesWritable(p: Plan)
    requires ValidPlan(p)
    ensures Writable(Denotes(p))
    decreases p, 0
  {
    if p.Container? {
      DenotesAllWritable(p.parts);
    }
  }

  lemma {:induction false} DenotesAllWritable(parts: seq<Plan>)
    requires AllValid(parts)
    ensures AllWritable(DenotesAll(parts))
    decreases parts, 1
  {
    if parts != [] {
      DenotesWritable(parts[0]);
      DenotesAllWritable(parts[1..]);
      assert DenotesAll(parts)[1..] == DenotesAll(parts[1..]);
    }
  }

  /**
   A tree driven through a fresh writer comes out as its shortest encoding, with the reported length,
   exactly when that encoding fits and the nesting limit is kept; and reading it back yields the tree
   and uses up every byte.
   */
  lemma WriteTree(c: Config, p: Plan)
    requires ValidPlan(p) && c.capacity < TWO_64
    ensures var s := Run(c, INITIAL, Calls(p)); var e := Encode(Denotes(p));
      if |e| <= c.capacity && Depth(p) <= c.maxNesting
      then s == Live(e, []) && EndWriter(s) == |e| && ReadItem(s.out) == Some((Denotes(p), |e|))
      else EndWriter(s) == 0
  {
    var item := Denotes(p);
    PlanRuns(c, EMPTY, p);
    EndOfRun(c, Calls(p));
    assert EncodeAll([item]) == Encode(item) + EncodeAll([item][1..]) == Encode(item);
    assert AddItem(EMPTY, item) == Doc([item], []);
    if |Encode(item)| <= c.capacity {
      DenotesWritable(p);
      ReadBack(item, []);
      assert Encode(item) + [] == Encode(item);
    }
  }

  lemma {:induction false} DocRunWritable(c: Config, d: Doc, calls: seq<Call>)
    requires WritableDoc(d)
    ensures var o := DocRun(c, d, calls); o.Ok? ==> WritableDoc(o.doc)
    decreases |calls|
  {
    if calls != [] && DocStep(c, d, calls[0]).Ok? {
      var d' := DocStep(c, d, calls[0]).doc;
      if calls[0].Open? {
        assert forall k :: 1 <= k < |d'.open| ==> d'.open[k] == d.open[k - 1];
      } else if calls[0].Close? {
        AddItemWritable(Doc(d.done, d.open[1..]), Closed(d.open[0]));
      } else if d' != d {
        var item :| d' == AddItem(d, item) && Writable(item);
        AddItemWritable(d, item);
      }
      DocRunWritable(c, d', calls[1..]);
    }
  }

  lemma AddItemWritable(d: Doc, item: Item)
    requires WritableDoc(d) && Writable(item)
    ensures WritableDoc(AddItem(d, item))
  {
    if d.open == [] {
      AllWritableAppend(d.done, item);
    } else {
      AllWritableAppend(d.open[0].items, item);
    }
  }

  /** Whatever a run wrote, the reader recovers: the same items in order, and nothing is left over. */
  lemma RunReadBack(c: Config, calls: seq<Call>)
    requires c.capacity < TWO_64 && !DocRun(c, EMPTY, calls).Misuse?
    requires EndWriter(Run(c, INITIAL, calls)) > 0
    ensures var o := DocRun(c, EMPTY, calls); var s := Run(c, INITIAL, calls);
      o.Ok? && s.Live? && ReadItems(s.out, |o.doc.done|) == Some((o.doc.done, |s.out|))
  {
    EndOfRun(c, calls);
    DocRunWritable(c, EMPTY, calls);
    var done := DocRun(c, EMPTY, calls).doc.done;
    ReadAllBack(done, []);
    assert EncodeAll(done) + [] == EncodeAll(done);
  }

  /** What a caller can check before closing the innermost container under the name `kind`. */
  ghost predicate CloseFits(c: Config, d: Doc, kind: Kind)
    requires d.open != []
  {
    var items := d.open[0].items;
    && (kind.Dict? ==> |items| % 2 == 0)
    && |Layout(d)| + ExtraBytes(HeadValue(kind, items)) <= c.capacity
  }

  /** A close under any name, right or wrong: when it is accepted, and what it leaves. */
  lemma CloseUnder(c: Config, d: Doc, s: State, kind: Kind)
    requires Simulates(d, s) && d.open != []
    ensures var f := d.open[0];
      CloseStep(c, s, kind) ==
        if CloseFits(c, d, kind)
        then Live(Layout(Doc(d.done, d.open[1..])) +
                    (Head(KindByte(f.kind), HeadValue(kind, f.items)) + EncodeAll(f.items)), s.open[1..])
        else Broken
  {
    InnermostBytes(d, s);
  }

  lemma HeadDetermines(base: seq<byte>, major: byte, m: nat, n: nat, body: seq<byte>)
    requires IsMajor(major) && m < TWO_64 && n < TWO_64
    ensures base + (Head(major, m) + body) == base + (Head(major, n) + body) <==> m == n
  {
    if base + (Head(major, m) + body) == base + (Head(major, n) + body) {
      assert Head(major, m) + body == (base + (Head(major, m) + body))[|base|..] == Head(major, n) + body;
      ReadHead(major, m, body);
      ReadHead(major, n, body);
    }
  }

  /**
   The writer does not remember which kind of container is open. When the right close would be accepted, a
   close under another name leads to the same writer exactly when both names count the contents alike; when
   it would not, exactly when the wrong one is refused as well.
   */
  lemma WrongClose(c: Config, d: Doc, s: State, kind: Kind)
    requires c.capacity < TWO_64 && Simulates(d, s) && |s.out| <= c.capacity && d.open != []
    ensures var f := d.open[0];
      CloseStep(c, s, kind) == CloseStep(c, s, f.kind) <==>
        if CloseFits(c, d, f.kind) then HeadValue(kind, f.items) == HeadValue(f.kind, f.items)
        else !CloseFits(c, d, kind)
  {
    var f, outer := d.open[0], Doc(d.done, d.open[1..]);
    CloseUnder(c, d, s, kind);
    CloseUnder(c, d, s, f.kind);
    InnermostBytes(d, s);
    HeadDetermines(Layout(outer), KindByte(f.kind), HeadValue(kind, f.items), HeadValue(f.kind, f.items),
                   EncodeAll(f.items));
  }

  /** So a wrong close that is accepted can leave bytes that are not the document's, and the writer goes on. */
  lemma WrongCloseAccepted(c: Config, d: Doc, s: State, kind: Kind)
    requires c.capacity < TWO_64 && Simulates(d, s) && |s.out| <= c.capacity && d.open != []
    requires CloseFits(c, d, d.open[0].kind) && CloseFits(c, d, kind)
    ensures var f := d.open[0]; var s' := CloseStep(c, s, kind);
      && s'.Live?
      && (Simulates(AddItem(Doc(d.done, d.open[1..]), Closed(f)), s') <==>
          HeadValue(kind, f.items) == HeadValue(f.kind, f.items))
  {
    var f := d.open[0];
    var d' := AddItem(Doc(d.done, d.open[1..]), Closed(f));
    CloseUnder(c, d, s, kind);
    CloseUnder(c, d, s, f.kind);
    WrongClose(c, d, s, kind);
    CloseSimulates(c, d, s, f.kind);
    LayoutAddItem(Doc(d.done, d.open[1..]), Closed(f));
    EncodeClosed(f);
  }
}
