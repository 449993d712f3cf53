/**
 The CBOR data items that the writer can emit and their preferred encoding
 (sections 3 and 4.1 of RFC 8949). Nothing here follows the writer's code: this is the
 reference it is measured against.
 */
module CborFormat {
  import opened Bytes

  type u64 = n: int | 0 <= n < TWO_64
  type i64 = n: int | -TWO_63 <= n < TWO_63

  const TWO_63 := 0x8000_0000_0000_0000
  const TWO_64 := 0x1_0000_0000_0000_0000

  // Major types, already shifted into the high three bits of the initial byte.
  const UNSIGNED: byte := 0x00
  const SIGNED: byte := 0x20
  const BYTE_STRING: byte := 0x40
  const TEXT_STRING: byte := 0x60
  const ARRAY: byte := 0x80
  const MAP: byte := 0xA0
  const SIMPLE: byte := 0xE0

  datatype SimpleValue = False | True | Null | Undefined

  function SimpleByte(v: SimpleValue): byte {
    match v
    case False => 0xF4
    case True => 0xF5
    case Null => 0xF6
    case Undefined => 0xF7
  }

  /** A data item. `Negative(n)` is the integer -1 - n; a map lists key, value, key, value, ... */
  datatype Item =
    | Unsigned(n: u64)
    | Negative(n: u64)
    | ByteString(data: seq<byte>)
    | TextString(text: seq<byte>)
    | Array(items: seq<Item>)
    | Map(entries: seq<Item>)
    | Simple(value: SimpleValue)

  /** The items the writer's interface can name: int64 negatives and maps with whole entries. */
  predicate Writable(item: Item)
    decreases item
  {
    match item
    case Negative(n) => n < TWO_63
    case Array(items) => AllWritable(items)
    case Map(entries) => |entries| % 2 == 0 && AllWritable(entries)
    case _ => true
  }

  predicate AllWritable(items: seq<Item>)
    decreases items
  {
    items == [] || (Writable(items[0]) && AllWritable(items[1..]))
  }

  /** The low `k` base-256 digits of `n`, most significant first. */
  function BigEndian(n: nat, k: nat): (s: seq<byte>)
    ensures |s| == k
  {
    if k == 0 then [] else BigEndian(n / 0x100, k - 1) + [n % 0x100]
  }

  function FromBigEndian(s: seq<byte>): nat {
    if s == [] then 0 else FromBigEndian(s[..|s| - 1]) * 0x100 + s[|s| - 1]
  }

  function Pow256(k: nat): (p: nat)
    ensures p >= 1
  {
    if k == 0 then 1 else Pow256(k - 1) * 0x100
  }

  /** Number of bytes that follow the initial byte when `n` takes its shortest form. */
  function ExtraBytes(n: nat): (k: nat) {
    if n < 24 then 0 else if n <= 0xFF then 1 else if n <= 0xFFFF then 2 else if n <= 0xFFFF_FFFF then 4 else 8
  }

  /** The additional information (low five bits of the initial byte) for `k` following bytes. */
  function Info(n: nat): (i: byte)
    ensures i < 28
  {
    if n < 24 then n else if n <= 0xFF then 24 else if n <= 0xFFFF then 25 else if n <= 0xFFFF_FFFF then 26 else 27
  }

  predicate IsMajor(b: byte) {
    b % 0x20 == 0
  }

  /** An initial byte splits back into its major type and additional information. */
  lemma InitialByte(major: byte, info: byte)
    requires IsMajor(major) && info < 0x20
    ensures (major + info) / 0x20 * 0x20 == major && (major + info) % 0x20 == info
  {
  }

  /** The shortest head with argument `n`. */
  function Head(major: byte, n: nat): (h: seq<byte>)
    requires IsMajor(major)
    ensures |h| == 1 + ExtraBytes(n)
    ensures h[0] == major + Info(n)
  {
    [major + Info(n)] + BigEndian(n, ExtraBytes(n))
  }

  function Encode(item: Item): (s: seq<byte>)
    ensures |s| >= 1
    decreases item
  {
    match item
    case Unsigned(n) => Head(UNSIGNED, n)
    case Negative(n) => Head(SIGNED, n)
    case ByteString(data) => Head(BYTE_STRING, |data|) + data
    case TextString(text) => Head(TEXT_STRING, |text|) + text
    case Array(items) => Head(ARRAY, |items|) + EncodeAll(items)
    case Map(entries) => Head(MAP, |entries| / 2) + EncodeAll(entries)
    case Simple(value) => [SimpleByte(value)]
  }

  function EncodeAll(items: seq<Item>): (s: seq<byte>)
    ensures |s| >= |items|
    decreases items
  {
    if items == [] then [] else Encode(items[0]) + EncodeAll(items[1..])
  }

  lemma {:induction false} EncodeAllAppend(items: seq<Item>, item: Item)
    ensures EncodeAll(items + [item]) == EncodeAll(items) + Encode(item)
  {
    if items == [] {
      assert items + [item] == [item];
      assert EncodeAll([item]) == Encode(item) + EncodeAll([item][1..]) == Encode(item);
    } else {
      assert (items + [item])[1..] == items[1..] + [item];
      EncodeAllAppend(items[1..], item);
    }
  }

  lemma {:induction false} AllWritableAppend(items: seq<Item>, item: Item)
    ensures AllWritable(items + [item]) <==> AllWritable(items) && Writable(item)
  {
    if items == [] {
      assert items + [item] == [item];
      assert AllWritable([item]) <==> Writable(item) && AllWritable([item][1..]);
    } else {
      assert (items + [item])[1..] == items[1..] + [item];
      AllWritableAppend(items[1..], item);
    }
  }

  /** Reading back the digits gives the number, as long as it fits. */
  lemma {:induction false} BigEndianValue(n: nat, k: nat)
    requires n < Pow256(k)
    ensures FromBigEndian(BigEndian(n, k)) == n
  {
    if k > 0 {
      var s := BigEndian(n, k);
      var high := n / 0x100;
      assert high < Pow256(k - 1) && n == high * 0x100 + n % 0x100;
      assert s[..|s| - 1] == BigEndian(high, k - 1) && s[|s| - 1] == n % 0x100;
      BigEndianValue(high, k - 1);
    }
  }

  lemma {:induction false} FromBigEndianBound(s: seq<byte>)
    ensures FromBigEndian(s) < Pow256(|s|)
  {
    if s != [] {
      FromBigEndianBound(s[..|s| - 1]);
    }
  }

  lemma PowersOf256()
    ensures Pow256(0) == 1 && Pow256(1) == 0x100 && Pow256(2) == 0x1_0000
    ensures Pow256(4) == 0x1_0000_0000 && Pow256(8) == TWO_64
  {
    assert Pow256(3) == 0x100_0000;
    assert Pow256(5) == 0x100_0000_0000;
    assert Pow256(6) == 0x1_0000_0000_0000;
    assert Pow256(7) == 0x100_0000_0000_0000;
  }

  lemma ExtraBytesFit(n: u64)
    ensures n < 24 || n < Pow256(ExtraBytes(n))
  {
    PowersOf256();
  }

  /** Any well-formed head, shortest or not: the additional information names the argument or its width. */
  predicate IsHead(h: seq<byte>, major: byte, n: nat)
    requires IsMajor(major)
  {
    h != [] && h[0] / 0x20 * 0x20 == major &&
    var info := h[0] % 0x20;
    if info < 24 then |h| == 1 && n == info
    else info < 28 && |h| == 1 + FollowingBytes(info) && n == FromBigEndian(h[1..])
  }

  function FollowingBytes(info: nat): nat
    requires 24 <= info < 28
  {
    if info == 24 then 1 else if info == 25 then 2 else if info == 26 then 4 else 8
  }

  lemma HeadIsHead(major: byte, n: u64)
    requires IsMajor(major)
    ensures IsHead(Head(major, n), major, n)
  {
    var head := Head(major, n);
    assert head[1..] == BigEndian(n, ExtraBytes(n));
    InitialByte(major, Info(n));
    if n >= 24 {
      ExtraBytesFit(n);
      BigEndianValue(n, ExtraBytes(n));
    }
  }

  /** `Head` is the preferred serialization: no head for `n` is shorter, and none as short differs from it. */
  lemma HeadIsShortest(major: byte, n: u64, h: seq<byte>)
    requires IsMajor(major) && IsHead(h, major, n)
    ensures |Head(major, n)| <= |h|
    ensures |h| == |Head(major, n)| ==> h == Head(major, n)
  {
    var info := h[0] % 0x20;
    assert h[0] == major + info;
    if info >= 24 {
      FromBigEndianBound(h[1..]);
      PowersOf256();
      if |h| == |Head(major, n)| {
        BigEndianUnique(h[1..]);
        assert h == [h[0]] + h[1..];
      }
    } else {
      assert h == [h[0]];
    }
  }

  lemma {:induction false} BigEndianUnique(s: seq<byte>)
    ensures BigEndian(FromBigEndian(s), |s|) == s
  {
    if s != [] {
      var n := FromBigEndian(s);
      assert n / 0x100 == FromBigEndian(s[..|s| - 1]) && n % 0x100 == s[|s| - 1];
      BigEndianUnique(s[..|s| - 1]);
    }
  }
}
