/**
 The debugging tool's own CBOR decoder: recursive, sharing a cursor, building Python values.
 It is independent of the C reader, so its agreement with the format is a second witness. Text becomes a string of
 code points, in which ill-formed UTF-8 is replaced by U+FFFD.
 */
module CborPython {
  import opened Bytes
  import opened CborFormat
  import opened CborReaderSpec
  import opened Unicode

  /** The integers the format can carry. */
  type CborInt = i: int | -TWO_64 <= i < TWO_64

  datatype Py =
    | PyInt(i: CborInt)
    | PyBytes(data: seq<byte>)
    | PyStr(text: seq<CodePoint>)
    | PyList(items: seq<Py>)
    | PyDict(pairs: seq<Entry>)
    | PyBool(b: bool)
    | PyNone

  datatype Entry = Entry(key: Py, value: Py)

  predicate Hashable(k: Py) {
    !k.PyList? && !k.PyDict?
  }

  /** Keys are the same to a dict when these agree: True is 1 and False is 0. */
  function KeyOf(k: Py): Py {
    if k.PyBool? then PyInt(if k.b then 1 else 0) else k
  }

  /** `m[k] = v` on a dict in insertion order: an equal key keeps its place and its first spelling. */
  function Store(m: seq<Entry>, k: Py, v: Py): (m': seq<Entry>)
    ensures |m'| == |m| || |m'| == |m| + 1
  {
    if m == [] then [Entry(k, v)]
    else if KeyOf(m[0].key) == KeyOf(k) then [Entry(m[0].key, v)] + m[1..]
    else [m[0]] + Store(m[1..], k, v)
  }

  function StoreAll(m: seq<Entry>, pairs: seq<Entry>): (m': seq<Entry>)
    ensures |m'| <= |m| + |pairs|
    decreases |pairs|
  {
    if pairs == [] then m else StoreAll(Store(m, pairs[0].key, pairs[0].value), pairs[1..])
  }

  /** Alternating keys and values, paired up. */
  function Pairs(vs: seq<Py>): (ps: seq<Entry>)
    ensures |ps| == |vs| / 2
    decreases |vs|
  {
    if |vs| < 2 then [] else [Entry(vs[0], vs[1])] + Pairs(vs[2..])
  }

  predicate HashableKeys(ps: seq<Entry>) {
    ps == [] || (Hashable(ps[0].key) && HashableKeys(ps[1..]))
  }

  /** A decoded value and the bytes it used (possibly more than there were), or a Python exception. */
  datatype Outcome<+T> = Done(value: T, used: nat) | Raise

  function Drop(s: seq<byte>, n: nat): seq<byte> {
    if n >= |s| then [] else s[n..]
  }

  function Take(s: seq<byte>, n: nat): seq<byte> {
    if n >= |s| then s else s[..n]
  }

  function ReadUint(s: seq<byte>): (r: Outcome<nat>)
    requires s != []
    ensures r.Done? ==> r.used >= 1 && r.value < TWO_64
  {
    var ai := s[0] % 0x20;
    if ai < 24 then Done(ai, 1)
    else if ai < 28 then
      var k := FollowingBytes(ai);
      if k > |s| - 1 then Raise
      else if k < 8 then WordBound(s[1..1 + k]); Done(FromBigEndian(s[1..1 + k]), 1 + k)
      else
        WordBound(s[1..5]);
        WordBound(s[5..9]);
        Done(FromBigEndian(s[1..5]) * 0x1_0000_0000 + FromBigEndian(s[5..9]), 9)
    else Done(0, 1)
  }

  lemma WordBound(s: seq<byte>)
    requires |s| == 1 || |s| == 2 || |s| == 4
    ensures FromBigEndian(s) < 0x1_0000_0000
  {
    FromBigEndianBound(s);
    PowersOf256();
  }

  function Decode(s: seq<byte>): (r: Outcome<Py>)
    ensures s != [] && r.Done? ==> r.used >= 1
    decreases |s|, 1, 0
  {
    if s == [] then Done(PyNone, 0) else DecodeHead(s)
  }

  function DecodeHead(s: seq<byte>): (r: Outcome<Py>)
    requires s != []
    ensures r.Done? ==> r.used >= 1
    decreases |s|, 0, 0
  {
    var mt := s[0] / 0x20;
    if mt <= 5 then
      match ReadUint(s)
      case Raise => Raise
      case Done(n, used) =>
        var rest := Drop(s, used);
        if mt == 0 then Done(PyInt(n), used)
        else if mt == 1 then Done(PyInt(-1 - n), used)
        else if mt == 2 then Done(PyBytes(Take(rest, n)), used + n)
        else if mt == 3 then Done(PyStr(DecodeText(Take(rest, n))), used + n)
        else if mt == 4 then
          match DecodeList(rest, n)
          case Raise => Raise
          case Done(items, more) => Done(PyList(items), used + more)
        else
          match DecodeList(rest, 2 * n)
          case Raise => Raise
          case Done(vs, more) =>
            if HashableKeys(Pairs(vs)) then Done(PyDict(StoreAll([], Pairs(vs))), used + more) else Raise
    else if mt == 7 then
      var ai := s[0] % 0x20;
      Done(if ai == 20 then PyBool(false) else if ai == 21 then PyBool(true) else PyNone, 1)
    else Done(PyNone, 1)
  }

  /**
   `n` values in a row. A map's loop decodes 2n values, alternately keys and values; since an exception
   abandons the whole decode, it does not matter that the loop stores each pair before decoding the next.
   */
  function DecodeList(s: seq<byte>, n: nat): Outcome<seq<Py>>
    decreases |s|, 2, n
  {
    if n == 0 then Done([], 0)
    else match Decode(s)
      case Raise => Raise
      case Done(v, used) =>
        match DecodeList(Drop(s, used), n - 1)
        case Raise => Raise
        case Done(rest, more) => Done([v] + rest, used + more)
  }

  // ---- what the decoder makes of an encoded item ----

  /** The decoder's result for every item, None when it raises. */
  function Eval(item: Item): Option<Py>
    decreases item
  {
    match item
    case Unsigned(n) => Some(PyInt(n))
    case Negative(n) => Some(PyInt(-1 - n))
    case ByteString(data) => Some(PyBytes(data))
    case TextString(text) => Some(PyStr(DecodeText(text)))
    case Array(items) => (match EvalAll(items) case None => None case Some(vs) => Some(PyList(vs)))
    case Map(entries) => (match EvalAll(entries)
      case None => None
      case Some(vs) => if HashableKeys(Pairs(vs)) then Some(PyDict(StoreAll([], Pairs(vs)))) else None)
    case Simple(value) => Some(match value case False => PyBool(false) case True => PyBool(true) case _ => PyNone)
  }

  function EvalAll(items: seq<Item>): (r: Option<seq<Py>>)
    ensures r.Some? ==> |r.value| == |items|
    decreases items
  {
    if items == [] then Some([])
    else match Eval(items[0])
      case None => None
      case Some(v) => match EvalAll(items[1..]) case None => None case Some(vs) => Some([v] + vs)
  }

  lemma ReadUintBack(major: byte, n: u64, rest: seq<byte>)
    requires IsMajor(major)
    ensures var s := Head(major, n) + rest; s[0] / 0x20 * 0x20 == major && ReadUint(s) == Done(n, |Head(major, n)|)
  {
    ReadHead(major, n, rest);
    var s := Head(major, n) + rest;
    if ExtraBytes(n) == 8 {
      SplitWord(s[1..9]);
      assert s[1..9][..4] == s[1..5] && s[1..9][4..] == s[5..9];
    }
  }

  /** Two 32-bit halves make the 64-bit value. */
  lemma SplitWord(w: seq<byte>)
    requires |w| == 8
    ensures FromBigEndian(w) == FromBigEndian(w[..4]) * 0x1_0000_0000 + FromBigEndian(w[4..])
  {
    Horner(w, 4);
    Horner(w, 5);
    Horner(w, 6);
    Horner(w, 7);
    var v := w[4..];
    assert v[0] == w[4] && v[1] == w[5] && v[2] == w[6] && v[3] == w[7];
    Horner(v, 0);
    Horner(v, 1);
    Horner(v, 2);
    Horner(v, 3);
    assert w[..8] == w && v[..4] == v;
  }

  lemma Horner(s: seq<byte>, k: nat)
    requires k < |s|
    ensures FromBigEndian(s[..k + 1]) == FromBigEndian(s[..k]) * 0x100 + s[k]
  {
    assert s[..k + 1][..k] == s[..k];
  }

  ghost function OutcomeOf<T>(v: Option<T>, used: nat): Outcome<T> {
    if v.None? then Raise else Done(v.value, used)
  }

  lemma ContainerBack(major: byte, n: nat, body: seq<byte>, rest: seq<byte>)
    requires IsMajor(major) && n < TWO_64
    ensures var s := Head(major, n) + body + rest;
      && s[0] / 0x20 * 0x20 == major && ReadUint(s) == Done(n, |Head(major, n)|)
      && Drop(s, |Head(major, n)|) == body + rest
  {
    var s := Head(major, n) + body + rest;
    assert s == Head(major, n) + (body + rest);
    ReadUintBack(major, n, body + rest);
  }

  lemma {:induction false} DecodeScalarBack(item: Item, rest: seq<byte>)
    requires item.Unsigned? || item.Negative? || item.Simple?
    ensures Decode(Encode(item) + rest) == OutcomeOf(Eval(item), |Encode(item)|)
  {
    if !item.Simple? {
      ReadUintBack(if item.Unsigned? then UNSIGNED else SIGNED, item.n, rest);
    }
  }

  lemma {:induction false} DecodeStringBack(item: Item, rest: seq<byte>)
    requires (item.ByteString? || item.TextString?) && |Encode(item)| < TWO_64
    ensures Decode(Encode(item) + rest) == OutcomeOf(Eval(item), |Encode(item)|)
  {
    var data := if item.ByteString? then item.data else item.text;
    ContainerBack(if item.ByteString? then BYTE_STRING else TEXT_STRING, |data|, data, rest);
    assert Take(data + rest, |data|) == data;
  }

  lemma DecodeArray(s: seq<byte>, n: nat, used: nat)
    requires s != [] && s[0] / 0x20 == 4 && ReadUint(s) == Done(n, used)
    ensures Decode(s) == match DecodeList(Drop(s, used), n)
      case Raise => Raise
      case Done(vs, more) => Done(PyList(vs), used + more)
  {
  }

  lemma DecodeMap(s: seq<byte>, n: nat, used: nat)
    requires s != [] && s[0] / 0x20 == 5 && ReadUint(s) == Done(n, used)
    ensures Decode(s) ==
      match DecodeList(Drop(s, used), 2 * n)
      case Raise => Raise
      case Done(vs, more) =>
        if HashableKeys(Pairs(vs)) then Done(PyDict(StoreAll([], Pairs(vs))), used + more) else Raise
  {
  }

  /** On every encoded item, whatever follows, the decoder uses exactly the encoding and returns `Eval`. */
  lemma {:induction false} DecodeBack(item: Item, rest: seq<byte>)
    requires Writable(item) && |Encode(item)| < TWO_64
    ensures Decode(Encode(item) + rest) == OutcomeOf(Eval(item), |Encode(item)|)
    decreases item, 0
  {
    match item
    case Array(items) => DecodeArrayBack(items, rest);
    case Map(entries) => DecodeMapBack(entries, rest);
    case ByteString(_) => DecodeStringBack(item, rest);
    case TextString(_) => DecodeStringBack(item, rest);
    case _ => DecodeScalarBack(item, rest);
  }

  lemma {:induction false} DecodeArrayBack(items: seq<Item>, rest: seq<byte>)
    requires AllWritable(items) && |Encode(Array(items))| < TWO_64
    ensures Decode(Encode(Array(items)) + rest) == OutcomeOf(Eval(Array(items)), |Encode(Array(items))|)
    decreases items, 2
  {
    var n := |items|;
    ContainerBack(ARRAY, n, EncodeAll(items), rest);
    DecodeArray(Encode(Array(items)) + rest, n, |Head(ARRAY, n)|);
    DecodeListBack(items, rest);
  }

  lemma {:induction false} DecodeMapBack(entries: seq<Item>, rest: seq<byte>)
    requires AllWritable(entries) && |entries| % 2 == 0 && |Encode(Map(entries))| < TWO_64
    ensures Decode(Encode(Map(entries)) + rest) == OutcomeOf(Eval(Map(entries)), |Encode(Map(entries))|)
    decreases entries, 2
  {
    var n, body := |entries| / 2, EncodeAll(entries);
    assert 2 * n == |entries|;
    ContainerBack(MAP, n, body, rest);
    DecodeListBack(entries, rest);
    DecodeMapOf(Head(MAP, n) + body + rest, n, |Head(MAP, n)|, EvalAll(entries), |body|);
  }

  lemma DecodeMapOf(s: seq<byte>, n: nat, used: nat, vs: Option<seq<Py>>, more: nat)
    requires s != [] && s[0] / 0x20 == 5 && ReadUint(s) == Done(n, used)
    requires DecodeList(Drop(s, used), 2 * n) == OutcomeOf(vs, more)
    ensures Decode(s) ==
      if vs.None? || !HashableKeys(Pairs(vs.value)) then Raise
      else Done(PyDict(StoreAll([], Pairs(vs.value))), used + more)
  {
    DecodeMap(s, n, used);
  }

  lemma {:induction false} DecodeListBack(items: seq<Item>, rest: seq<byte>)
    requires AllWritable(items) && |EncodeAll(items)| < TWO_64
    ensures DecodeList(EncodeAll(items) + rest, |items|) == OutcomeOf(EvalAll(items), |EncodeAll(items)|)
    decreases items, 1
  {
    if items != [] {
      var first, others := Encode(items[0]), EncodeAll(items[1..]);
      assert EncodeAll(items) + rest == first + (others + rest);
      DecodeBack(items[0], others + rest);
      assert Drop(first + (others + rest), |first|) == others + rest;
      DecodeListBack(items[1..], rest);
    }
  }

  // ---- when the result is the item itself ----

  /** The Python value an item denotes, with a map's entries listed in order. */
  function Value(item: Item): Py
    decreases item
  {
    match item
    case Unsigned(n) => PyInt(n)
    case Negative(n) => PyInt(-1 - n)
    case ByteString(data) => PyBytes(data)
    case TextString(text) => PyStr(DecodeText(text))
    case Array(items) => PyList(ValueAll(items))
    case Map(entries) => PyDict(Pairs(ValueAll(entries)))
    case Simple(value) => match value case False => PyBool(false) case True => PyBool(true) case _ => PyNone
  }

  function ValueAll(items: seq<Item>): (vs: seq<Py>)
    ensures |vs| == |items|
    decreases items
  {
    if items == [] then [] else [Value(items[0])] + ValueAll(items[1..])
  }

  /** Keys that a dict keeps apart. */
  predicate DistinctKeys(ps: seq<Entry>) {
    forall i, j :: 0 <= i < j < |ps| ==> KeyOf(ps[i].key) != KeyOf(ps[j].key)
  }

  /** Every map inside has hashable keys that Python tells apart. */
  predicate Decodable(item: Item)
    decreases item
  {
    match item
    case Array(items) => AllDecodable(items)
    case Map(entries) =>
      var ps := Pairs(ValueAll(entries)); HashableKeys(ps) && DistinctKeys(ps) && AllDecodable(entries)
    case _ => true
  }

  predicate AllDecodable(items: seq<Item>)
    decreases items
  {
    items == [] || (Decodable(items[0]) && AllDecodable(items[1..]))
  }

  lemma {:induction false} StoreNew(m: seq<Entry>, k: Py, v: Py)
    ensures if forall i :: 0 <= i < |m| ==> KeyOf(m[i].key) != KeyOf(k) then Store(m, k, v) == m + [Entry(k, v)]
      else |Store(m, k, v)| == |m|
  {
    if m != [] {
      StoreNew(m[1..], k, v);
      assert forall i :: 1 <= i < |m| ==> m[i] == m[1..][i - 1];
    }
  }

  /** A dict keeps all the pairs stored into it exactly when their keys are distinct. */
  lemma {:induction false} StoreAllKeeps(m: seq<Entry>, ps: seq<Entry>)
    requires DistinctKeys(m)
    ensures DistinctKeys(m + ps) ==> StoreAll(m, ps) == m + ps
    ensures !DistinctKeys(m + ps) ==> |StoreAll(m, ps)| < |m + ps|
    decreases |ps|
  {
    if ps == [] {
      assert m + ps == m;
    } else {
      var k := ps[0].key;
      StoreNew(m, k, ps[0].value);
      assert (m + ps)[|m|] == ps[0];
      if forall i :: 0 <= i < |m| ==> KeyOf(m[i].key) != KeyOf(k) {
        assert m + [ps[0]] + ps[1..] == m + ps;
        StoreAllKeeps(m + [ps[0]], ps[1..]);
      } else {
        var i :| 0 <= i < |m| && KeyOf(m[i].key) == KeyOf(k);
        assert (m + ps)[i] == m[i];
      }
    }
  }

  /** The decoder gives the item's value, with no entry lost, exactly when it is decodable. */
  lemma {:induction false} EvalIsValue(item: Item)
    requires Writable(item)
    ensures Eval(item) == Some(Value(item)) <==> Decodable(item)
    decreases item, 0
  {
    if item.Array? {
      EvalAllIsValue(item.items);
    } else if item.Map? {
      EvalAllIsValue(item.entries);
      if EvalAll(item.entries).Some? {
        DictIsPairs(EvalAll(item.entries).value, ValueAll(item.entries));
      }
    }
  }

  /** A dict built from `vs` lists the pairs of `ws` exactly when both are the same and no key is lost. */
  lemma DictIsPairs(vs: seq<Py>, ws: seq<Py>)
    requires |vs| == |ws| && |vs| % 2 == 0
    ensures StoreAll([], Pairs(vs)) == Pairs(ws) <==> vs == ws && DistinctKeys(Pairs(vs))
  {
    var ps := Pairs(vs);
    StoreAllKeeps([], ps);
    assert [] + ps == ps;
    if StoreAll([], ps) == Pairs(ws) {
      PairsInjective(vs, ws);
    }
  }

  lemma {:induction false} PairsInjective(a: seq<Py>, b: seq<Py>)
    requires |a| == |b| && |a| % 2 == 0 && Pairs(a) == Pairs(b)
    ensures a == b
    decreases |a|
  {
    if |a| >= 2 {
      assert Pairs(a)[0] == Pairs(b)[0] && Pairs(a)[1..] == Pairs(a[2..]) && Pairs(b)[1..] == Pairs(b[2..]);
      PairsInjective(a[2..], b[2..]);
      assert a == [a[0], a[1]] + a[2..] && b == [b[0], b[1]] + b[2..];
    }
  }

  lemma {:induction false} EvalAllIsValue(items: seq<Item>)
    requires AllWritable(items)
    ensures EvalAll(items) == Some(ValueAll(items)) <==> AllDecodable(items)
    decreases items, 1
  {
    if items != [] {
      EvalIsValue(items[0]);
      EvalAllIsValue(items[1..]);
      var vs := EvalAll(items);
      if vs.Some? && vs.value == ValueAll(items) {
        assert vs.value[0] == ValueAll(items)[0] && vs.value[1..] == ValueAll(items)[1..];
      }
    }
  }

  // ---- how much of the item the value keeps ----

  /** `item` with undefined written as null, which Python's None cannot tell apart. */
  function Nulled(item: Item): Item
    decreases item
  {
    match item
    case Array(items) => Array(NulledAll(items))
    case Map(entries) => Map(NulledAll(entries))
    case Simple(value) => if value.Undefined? then Simple(Null) else item
    case _ => item
  }

  function NulledAll(items: seq<Item>): (r: seq<Item>)
    ensures |r| == |items|
    decreases items
  {
    if items == [] then [] else [Nulled(items[0])] + NulledAll(items[1..])
  }

  /** `item` with undefined written as null and every ill-formed part of a text replaced. */
  function Kept(item: Item): Item
    decreases item
  {
    match item
    case TextString(text) => TextString(Repaired(text))
    case Array(items) => Array(KeptAll(items))
    case Map(entries) => Map(KeptAll(entries))
    case Simple(value) => if value.Undefined? then Simple(Null) else item
    case _ => item
  }

  function KeptAll(items: seq<Item>): (r: seq<Item>)
    ensures |r| == |items|
    decreases items
  {
    if items == [] then [] else [Kept(items[0])] + KeptAll(items[1..])
  }

  /** The item a Python value would be written as. */
  function ItemOf(v: Py): Item
    decreases v
  {
    match v
    case PyInt(i) => if i >= 0 then Unsigned(i) else Negative(-1 - i)
    case PyBytes(data) => ByteString(data)
    case PyStr(text) => TextString(EncodeText(text))
    case PyList(items) => Array(ItemsOf(items))
    case PyDict(pairs) => Map(EntriesOf(pairs))
    case PyBool(b) => Simple(if b then True else False)
    case PyNone => Simple(Null)
  }

  function ItemsOf(vs: seq<Py>): (r: seq<Item>)
    ensures |r| == |vs|
    decreases vs
  {
    if vs == [] then [] else [ItemOf(vs[0])] + ItemsOf(vs[1..])
  }

  function EntriesOf(ps: seq<Entry>): (r: seq<Item>)
    ensures |r| == 2 * |ps|
    decreases ps
  {
    if ps == [] then [] else EntryOf(ps[0]) + EntriesOf(ps[1..])
  }

  function EntryOf(p: Entry): (r: seq<Item>)
    ensures |r| == 2
    decreases p
  {
    [ItemOf(p.key), ItemOf(p.value)]
  }

  lemma {:induction false} EntriesOfPairs(vs: seq<Py>)
    requires |vs| % 2 == 0
    ensures EntriesOf(Pairs(vs)) == ItemsOf(vs)
    decreases |vs|
  {
    if |vs| >= 2 {
      EntriesOfPairs(vs[2..]);
      PairsFirst(vs);
      TwoItems(vs);
    }
  }

  lemma PairsFirst(vs: seq<Py>)
    requires |vs| >= 2
    ensures EntriesOf(Pairs(vs)) == [ItemOf(vs[0]), ItemOf(vs[1])] + EntriesOf(Pairs(vs[2..]))
  {
    var ps := Pairs(vs);
    assert ps[0] == Entry(vs[0], vs[1]) && ps[1..] == Pairs(vs[2..]);
    assert EntryOf(ps[0]) == [ItemOf(vs[0]), ItemOf(vs[1])];
  }

  lemma TwoItems(vs: seq<Py>)
    requires |vs| >= 2
    ensures ItemsOf(vs) == [ItemOf(vs[0]), ItemOf(vs[1])] + ItemsOf(vs[2..])
  {
    var rest := vs[1..];
    assert rest[0] == vs[1] && rest[1..] == vs[2..];
    ItemsFirst(vs);
    ItemsFirst(rest);
    Joined(ItemOf(vs[0]), ItemOf(vs[1]), ItemsOf(vs[2..]));
  }

  lemma ItemsFirst(vs: seq<Py>)
    requires vs != []
    ensures ItemsOf(vs) == [ItemOf(vs[0])] + ItemsOf(vs[1..])
  {
  }

  lemma Joined<T>(x: T, y: T, rest: seq<T>)
    ensures [x] + ([y] + rest) == [x, y] + rest
  {
  }

  /** Writing an item's value gives the item back, but for null and undefined and ill-formed text. */
  lemma {:induction false} ItemOfValue(item: Item)
    requires Writable(item)
    ensures ItemOf(Value(item)) == Kept(item)
    decreases item, 0
  {
    if item.Array? {
      ItemsOfValues(item.items);
    } else if item.Map? {
      EntriesOfPairs(ValueAll(item.entries));
      ItemsOfValues(item.entries);
    }
  }

  lemma {:induction false} ItemsOfValues(items: seq<Item>)
    requires AllWritable(items)
    ensures ItemsOf(ValueAll(items)) == KeptAll(items)
    decreases items, 1
  {
    if items != [] {
      ItemOfValue(items[0]);
      ItemsOfValues(items[1..]);
      assert ValueAll(items)[0] == Value(items[0]) && ValueAll(items)[1..] == ValueAll(items[1..]);
    }
  }

  /** What is kept has the same value. */
  lemma {:induction false} ValueOfKept(item: Item)
    ensures Value(Kept(item)) == Value(item)
    decreases item, 0
  {
    if item.TextString? {
      DecodedScalars(item.text);
      TextBack(DecodeText(item.text));
    } else if item.Array? {
      ValuesOfKept(item.items);
    } else if item.Map? {
      ValuesOfKept(item.entries);
    }
  }

  lemma {:induction false} ValuesOfKept(items: seq<Item>)
    ensures ValueAll(KeptAll(items)) == ValueAll(items)
    decreases items, 1
  {
    if items != [] {
      ValueOfKept(items[0]);
      ValuesOfKept(items[1..]);
      assert KeptAll(items)[0] == Kept(items[0]) && KeptAll(items)[1..] == KeptAll(items[1..]);
    }
  }

  /** Two items have the same value exactly when what is kept of them is the same. */
  lemma ValueDetermines(a: Item, b: Item)
    requires Writable(a) && Writable(b)
    ensures Value(a) == Value(b) <==> Kept(a) == Kept(b)
  {
    ItemOfValue(a);
    ItemOfValue(b);
    ValueOfKept(a);
    ValueOfKept(b);
  }

  /** Every text inside is well-formed UTF-8. */
  predicate ProperText(item: Item)
    decreases item
  {
    match item
    case TextString(text) => WellFormed(text)
    case Array(items) => AllProperText(items)
    case Map(entries) => AllProperText(entries)
    case _ => true
  }

  predicate AllProperText(items: seq<Item>)
    decreases items
  {
    items == [] || (ProperText(items[0]) && AllProperText(items[1..]))
  }

  lemma {:induction false} KeptIff(item: Item)
    ensures Kept(item) == Nulled(item) <==> ProperText(item)
    decreases item, 0
  {
    if item.TextString? {
      WellFormedIff(item.text);
    } else if item.Array? {
      AllKeptIff(item.items);
    } else if item.Map? {
      AllKeptIff(item.entries);
    }
  }

  lemma {:induction false} AllKeptIff(items: seq<Item>)
    ensures KeptAll(items) == NulledAll(items) <==> AllProperText(items)
    decreases items, 1
  {
    if items != [] {
      KeptIff(items[0]);
      AllKeptIff(items[1..]);
      FirstAndRest(KeptAll(items), NulledAll(items));
    }
  }

  lemma FirstAndRest<T>(s: seq<T>, t: seq<T>)
    requires s != [] && t != []
    ensures s == t <==> s[0] == t[0] && s[1..] == t[1..]
  {
    assert s == [s[0]] + s[1..] && t == [t[0]] + t[1..];
  }

  // ---- when the decoder recovers the item ----

  ghost predicate Recovers(v: Option<Py>, item: Item) {
    v.Some? && ItemOf(v.value) == Nulled(item)
  }

  /** The decoder's result writes the item again exactly when no entry is lost and every text is well formed. */
  lemma {:induction false} EvalRecovers(item: Item)
    requires Writable(item)
    ensures Recovers(Eval(item), item) <==> Decodable(item) && ProperText(item)
    decreases item, 0
  {
    EvalIsValue(item);
    if Decodable(item) {
      ItemOfValue(item);
      KeptIff(item);
    } else if item.Array? {
      if EvalAll(item.items).Some? { SomeLost(item.items, EvalAll(item.items).value); }
    } else {
      var vs := EvalAll(item.entries);
      if vs.Some? && HashableKeys(Pairs(vs.value)) { DictLoses(item.entries, vs.value); }
    }
  }

  lemma {:induction false} DictLoses(entries: seq<Item>, vs: seq<Py>)
    requires AllWritable(entries) && |entries| % 2 == 0 && EvalAll(entries) == Some(vs)
    requires !Decodable(Map(entries)) && HashableKeys(Pairs(vs))
    ensures EntriesOf(StoreAll([], Pairs(vs))) != NulledAll(entries)
    decreases entries, 2
  {
    var ps := Pairs(vs);
    StoreAllKeeps([], ps);
    assert [] + ps == ps;
    if DistinctKeys(ps) {
      EntriesOfPairs(vs);
      EvalAllIsValue(entries);
      SomeLost(entries, vs);
    }
  }

  /** If items are not all decodable, what comes of them does not write them all again. */
  lemma {:induction false} SomeLost(items: seq<Item>, vs: seq<Py>)
    requires AllWritable(items) && EvalAll(items) == Some(vs) && !AllDecodable(items)
    ensures ItemsOf(vs) != NulledAll(items)
    decreases items, 1
  {
    EvalRecovers(items[0]);
    FirstAndRest(ItemsOf(vs), NulledAll(items));
    assert vs[1..] == EvalAll(items[1..]).value;
    if Decodable(items[0]) { SomeLost(items[1..], vs[1..]); }
  }

  /** End to end: the decoder's result writes the item again, up to null and undefined, exactly when it should. */
  lemma DecodeRecovers(item: Item, rest: seq<byte>)
    requires Writable(item) && |Encode(item)| < TWO_64
    ensures var r := Decode(Encode(item) + rest);
      r.Done? && r.used == |Encode(item)| && ItemOf(r.value) == Nulled(item) <==> Decodable(item) && ProperText(item)
  {
    DecodeBack(item, rest);
    EvalRecovers(item);
  }

  /** Decodable items decode alike exactly when what is kept of them is the same. */
  lemma DecodeInjective(a: Item, b: Item, rest: seq<byte>, rest': seq<byte>)
    requires Writable(a) && |Encode(a)| < TWO_64 && Decodable(a)
    requires Writable(b) && |Encode(b)| < TWO_64 && Decodable(b)
    ensures var u, v := Decode(Encode(a) + rest), Decode(Encode(b) + rest');
      u.Done? && v.Done? && (u.value == v.value <==> Kept(a) == Kept(b))
  {
    DecodeBack(a, rest);
    DecodeBack(b, rest');
    EvalIsValue(a);
    EvalIsValue(b);
    ValueDetermines(a, b);
  }

  /** Two texts the decoder cannot tell apart; as keys of one map, one entry is lost. */
  lemma TextsCollide()
    ensures var a, b := TextString([0xFF]), TextString([0xFE]);
      && Value(a) == Value(b) == PyStr([0xFFFD])
      && !Decodable(Map([a, Unsigned(1), b, Unsigned(2)]))
  {
    var a, b := TextString([0xFF]), TextString([0xFE]);
    OneBad(0xFF);
    OneBad(0xFE);
    var entries := [a, Unsigned(1), b, Unsigned(2)];
    ValueAllAt(entries, 0);
    ValueAllAt(entries, 2);
    var vs := ValueAll(entries);
    var ps := Pairs(vs);
    assert ps[0].key == vs[0] && ps[1..] == Pairs(vs[2..]) && ps[1] == Pairs(vs[2..])[0];
    assert ps[1].key == vs[2];
    assert KeyOf(ps[0].key) == KeyOf(ps[1].key);
    assert !DistinctKeys(ps);
  }

  lemma OneBad(b: byte)
    requires LengthOf(b) == 0
    ensures DecodeText([b]) == [0xFFFD]
  {
    var t := [b];
    assert t[..1] == t && t[1..] == [];
    assert DecodeText(t[1..]) == [];
  }

  lemma {:induction false} ValueAllAt(items: seq<Item>, k: nat)
    requires k < |items|
    ensures ValueAll(items)[k] == Value(items[k])
  {
    if k > 0 { ValueAllAt(items[1..], k - 1); }
  }
}
