/**
 The CBOR reader's calls as functions of the unread bytes, and the items a caller recovers by
 peeking at the next major type and making the matching call.
 */
module CborReaderSpec {
  import opened Bytes
  import opened CborFormat

  const SIZE_MAX := TWO_64 - 1
  const INT64_MAX := TWO_63 - 1

  // The values of `cbor_size_t`, with None for CBOR_SIZE_NONE.
  const SIZE_1 := 0x18

  /** Outcome of a read: the result, if any, and how many bytes the cursor moved either way. */
  datatype Read<+T> = Read(result: Option<T>, used: nat)

  function PeekNext(s: seq<byte>): Option<byte> {
    if s == [] then None else Some(s[0] / 0x20 * 0x20)
  }

  /** Size code and value of the head at the front, whatever its major type. */
  function ReadUnsigned(s: seq<byte>): (r: Read<(nat, u64)>)
    ensures r.used <= |s|
    ensures r.result.Some? ==> r.used >= 1
  {
    if s == [] then Read(None, 0)
    else
      var size := s[0] % 0x20;
      if size < SIZE_1 then Read(Some((SIZE_1, size)), 1)
      else if size >= 28 then Read(None, 1)
      else
        var k := FollowingBytes(size);
        if k > |s| - 1 then Read(None, 1)
        else
          var digits := s[1..1 + k];
          assert FromBigEndian(digits) < TWO_64 by { FromBigEndianBound(digits); PowersOf256(); }
          Read(Some((size, FromBigEndian(digits))), 1 + k)
  }

  /** Two's-complement reinterpretation of a uint64_t as an int64_t. */
  function AsInt64(n: u64): i64 {
    if n < TWO_63 then n else n - TWO_64
  }

  /** Two's-complement negation, which maps -2^63 to itself. */
  function Negated(v: i64): i64 {
    if v == -TWO_63 then v else -v
  }

  function ReadSigned(s: seq<byte>): (r: Read<(nat, i64)>)
    ensures r.used <= |s|
    ensures r.result.Some? ==> r.used >= 1
  {
    var u := ReadUnsigned(s);
    if u.result.None? || u.result.value.1 > INT64_MAX then Read(None, u.used)
    else
      var (size, n) := u.result.value;
      if PeekNext(s) == Some(UNSIGNED) then Read(Some((size, n)), u.used)
      else if PeekNext(s) == Some(SIGNED) then Read(Some((size, Negated(AsInt64(n + 1)))), u.used)
      else Read(None, u.used)
  }

  /** A byte or text string of the given major type. */
  function ReadString(s: seq<byte>, major: byte): (r: Read<seq<byte>>)
    ensures r.used <= |s|
    ensures r.result.Some? ==> r.used >= 1
  {
    if PeekNext(s) != Some(major) then Read(None, 0)
    else
      var u := ReadUnsigned(s);
      if u.result.None? || |s| - u.used < u.result.value.1 then Read(None, u.used)
      else
        var n := u.result.value.1;
        Read(Some(s[u.used..u.used + n]), u.used + n)
  }

  function ReadSimple(s: seq<byte>): (r: Read<byte>)
    ensures r.used <= |s|
    ensures r.result.Some? ==> r.used >= 1
  {
    if s == [] then Read(None, 0) else Read(Some(s[0]), 1)
  }

  /** Element or entry count of an array or map; None stands for SIZE_MAX. */
  function ReadCount(s: seq<byte>, major: byte): (r: Read<nat>)
    ensures r.used <= |s|
    ensures r.result.Some? ==> r.used >= 1
  {
    if PeekNext(s) != Some(major) then Read(None, 0)
    else
      var u := ReadUnsigned(s);
      if u.result.None? || u.result.value.1 >= SIZE_MAX then Read(None, u.used)
      else Read(Some(u.result.value.1), u.used)
  }

  function SimpleOf(b: byte): Option<SimpleValue> {
    if b == 0xF4 then Some(False) else if b == 0xF5 then Some(True)
    else if b == 0xF6 then Some(Null) else if b == 0xF7 then Some(Undefined) else None
  }

  /** The next item, read by peeking and making the call its major type asks for. */
  function ReadItem(s: seq<byte>): (r: Option<(Item, nat)>)
    ensures r.Some? ==> 1 <= r.value.1 <= |s|
    decreases |s|, 2
  {
    match PeekNext(s)
    case None => None
    case Some(major) => ReadTyped(s, major)
  }

  function ReadTyped(s: seq<byte>, major: byte): (r: Option<(Item, nat)>)
    requires PeekNext(s) == Some(major)
    ensures r.Some? ==> 1 <= r.value.1 <= |s|
    decreases |s|, 1
  {
    if major == UNSIGNED then
      var r := ReadUnsigned(s);
      if r.result.None? then None else Some((Unsigned(r.result.value.1), r.used))
    else if major == SIGNED then
      var r := ReadSigned(s);
      if r.result.None? || r.result.value.1 >= 0 then None else Some((Negative(-1 - r.result.value.1), r.used))
    else if major == BYTE_STRING then
      var r := ReadString(s, BYTE_STRING);
      if r.result.None? then None else Some((ByteString(r.result.value), r.used))
    else if major == TEXT_STRING then
      var r := ReadString(s, TEXT_STRING);
      if r.result.None? then None else Some((TextString(r.result.value), r.used))
    else if major == ARRAY then
      match ReadBody(s, ARRAY)
      case None => None
      case Some((items, used)) => Some((Array(items), used))
    else if major == MAP then
      match ReadBody(s, MAP)
      case None => None
      case Some((items, used)) => Some((Map(items), used))
    else if major == SIMPLE then
      var r := ReadSimple(s);
      match SimpleOf(r.result.value)
      case None => None
      case Some(v) => Some((Simple(v), r.used))
    else None
  }

  /** How many items `count` elements of an array or entries of a map are. */
  function ItemCount(major: byte, count: nat): nat {
    if major == MAP then 2 * count else count
  }

  /** The contents of an array or map: a count of elements, then their items. */
  function ReadBody(s: seq<byte>, major: byte): (r: Option<(seq<Item>, nat)>)
    ensures r.Some? ==> 1 <= r.value.1 <= |s|
    decreases |s|, 0
  {
    var r := ReadCount(s, major);
    if r.result.None? then None
    else match ReadItems(s[r.used..], ItemCount(major, r.result.value))
      case None => None
      case Some((items, used)) => Some((items, r.used + used))
  }

  function ReadItems(s: seq<byte>, n: nat): (r: Option<(seq<Item>, nat)>)
    ensures r.Some? ==> r.value.1 <= |s| && |r.value.0| == n
    decreases |s|, 3
  {
    if n == 0 then Some(([], 0))
    else match ReadItem(s)
      case None => None
      case Some((item, used)) =>
        match ReadItems(s[used..], n - 1)
        case None => None
        case Some((rest, more)) => Some(([item] + rest, used + more))
  }

  // ---- reading back what the format prescribes ----

  lemma ReadHead(major: byte, n: u64, rest: seq<byte>)
    requires IsMajor(major)
    ensures var s := Head(major, n) + rest;
      && PeekNext(s) == Some(major)
      && ReadUnsigned(s) == Read(Some((if n < 24 then SIZE_1 else Info(n), n)), 1 + ExtraBytes(n))
  {
    var h := Head(major, n);
    var s := h + rest;
    assert s[0] == major + Info(n);
    InitialByte(major, Info(n));
    if n >= 24 {
      assert s[1..1 + ExtraBytes(n)] == BigEndian(n, ExtraBytes(n));
      ExtraBytesFit(n);
      BigEndianValue(n, ExtraBytes(n));
    }
  }

  lemma ReadStringBack(major: byte, data: seq<byte>, rest: seq<byte>)
    requires IsMajor(major) && |data| < TWO_64
    ensures ReadString(Head(major, |data|) + data + rest, major) == Read(Some(data), |Head(major, |data|)| + |data|)
  {
    var s := Head(major, |data|) + data + rest;
    assert s == Head(major, |data|) + (data + rest);
    ReadHead(major, |data|, data + rest);
    var k := |Head(major, |data|)|;
    assert s[k..k + |data|] == data;
  }

  lemma ReadIntegerBack(item: Item, rest: seq<byte>)
    requires item.Unsigned? || (item.Negative? && item.n < TWO_63)
    ensures ReadItem(Encode(item) + rest) == Some((item, |Encode(item)|))
  {
    ReadHead(if item.Unsigned? then UNSIGNED else SIGNED, item.n, rest);
  }

  lemma ReadLeafBack(item: Item, rest: seq<byte>)
    requires item.ByteString? || item.TextString? || item.Simple?
    requires |Encode(item)| < TWO_64
    ensures ReadItem(Encode(item) + rest) == Some((item, |Encode(item)|))
  {
    match item
    case ByteString(data) =>
      ReadStringBack(BYTE_STRING, data, rest);
      assert PeekNext(Encode(item) + rest) == Some(BYTE_STRING);
    case TextString(text) =>
      ReadStringBack(TEXT_STRING, text, rest);
      assert PeekNext(Encode(item) + rest) == Some(TEXT_STRING);
    case Simple(value) =>
      assert (Encode(item) + rest)[0] == SimpleByte(value);
  }

  /** Reading one item back consumes exactly its encoding and recovers it, whatever follows. */
  lemma {:induction false} ReadBack(item: Item, rest: seq<byte>)
    requires Writable(item) && |Encode(item)| < TWO_64
    ensures ReadItem(Encode(item) + rest) == Some((item, |Encode(item)|))
    decreases item, 0
  {
    if item.Array? {
      ReadContainerBack(ARRAY, |item.items|, item.items, rest);
    } else if item.Map? {
      ReadContainerBack(MAP, |item.entries| / 2, item.entries, rest);
    } else if item.Unsigned? || item.Negative? {
      ReadIntegerBack(item, rest);
    } else {
      ReadLeafBack(item, rest);
    }
  }

  lemma {:induction false} ReadContainerBack(major: byte, n: nat, items: seq<Item>, rest: seq<byte>)
    requires IsMajor(major) && AllWritable(items) && |items| == ItemCount(major, n)
    requires |Head(major, n) + EncodeAll(items)| < TWO_64
    ensures var h := Head(major, n); var s := h + EncodeAll(items) + rest;
      && PeekNext(s) == Some(major)
      && ReadBody(s, major) == Some((items, |h| + |EncodeAll(items)|))
    decreases items, 1
  {
    var h := Head(major, n);
    var s := h + EncodeAll(items) + rest;
    assert s == h + (EncodeAll(items) + rest);
    ReadHead(major, n, EncodeAll(items) + rest);
    assert s[|h|..] == EncodeAll(items) + rest;
    ReadAllBack(items, rest);
  }

  lemma {:induction false} ReadAllBack(items: seq<Item>, rest: seq<byte>)
    requires AllWritable(items) && |EncodeAll(items)| < TWO_64
    ensures ReadItems(EncodeAll(items) + rest, |items|) == Some((items, |EncodeAll(items)|))
    decreases items, 0
  {
    if items != [] {
      var first, others := Encode(items[0]), EncodeAll(items[1..]);
      assert EncodeAll(items) + rest == first + (others + rest);
      ReadBack(items[0], others + rest);
      assert (EncodeAll(items) + rest)[|first|..] == others + rest;
      ReadAllBack(items[1..], rest);
      assert [items[0]] + items[1..] == items;
    }
  }

  /** Encodings are distinct and none is a proper prefix of another, so a byte string means one item. */
  lemma EncodeInjective(a: Item, b: Item, rest: seq<byte>)
    requires Writable(a) && Writable(b) && |Encode(a)| < TWO_64 && |Encode(b)| < TWO_64
    requires Encode(a) == Encode(b) + rest
    ensures a == b && rest == []
  {
    ReadBack(a, []);
    ReadBack(b, rest);
    assert Encode(a) + [] == Encode(a);
  }
}
