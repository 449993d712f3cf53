/**
 What the reader accepts: exactly the well-formed encodings of section 3 of RFC 8949, heads of any width included,
 of the items its interface can name.
 */
module CborAccepted {
  import opened Bytes
  import opened CborFormat
  import opened CborReaderSpec
  import CborWriterSpec

  // ---- encodings, shortest or not ----

  /** A head with the argument `n`, then `body`. */
  ghost predicate HeadThen(s: seq<byte>, major: byte, n: nat, body: seq<byte>)
    requires IsMajor(major)
  {
    |body| <= |s| && IsHead(s[..|s| - |body|], major, n) && s[|s| - |body|..] == body
  }

  ghost predicate Encodes(s: seq<byte>, item: Item)
    decreases item, 1
  {
    match item
    case Unsigned(n) => IsHead(s, UNSIGNED, n)
    case Negative(n) => IsHead(s, SIGNED, n)
    case ByteString(data) => HeadThen(s, BYTE_STRING, |data|, data)
    case TextString(text) => HeadThen(s, TEXT_STRING, |text|, text)
    case Array(items) => exists k :: 0 <= k <= |s| && IsHead(s[..k], ARRAY, |items|) && EncodesAll(s[k..], items)
    case Map(entries) =>
      && |entries| % 2 == 0
      && exists k :: 0 <= k <= |s| && IsHead(s[..k], MAP, |entries| / 2) && EncodesAll(s[k..], entries)
    case Simple(value) => s == [SimpleByte(value)]
  }

  ghost predicate EncodesAll(s: seq<byte>, items: seq<Item>)
    decreases items, 0
  {
    if items == [] then s == []
    else exists k :: 0 <= k <= |s| && Encodes(s[..k], items[0]) && EncodesAll(s[k..], items[1..])
  }

  /** The items the calls can return: int64 negatives, and counts below the value that stands for failure. */
  predicate Readable(item: Item)
    decreases item
  {
    match item
    case Negative(n) => n < 0x8000_0000_0000_0000
    case Array(items) => |items| < 0xFFFF_FFFF_FFFF_FFFF && AllReadable(items)
    case Map(entries) => |entries| / 2 < 0xFFFF_FFFF_FFFF_FFFF && AllReadable(entries)
    case _ => true
  }

  predicate AllReadable(items: seq<Item>)
    decreases items
  {
    items == [] || (Readable(items[0]) && AllReadable(items[1..]))
  }

  // ---- heads ----

  lemma HeadRead(h: seq<byte>, rest: seq<byte>, major: byte, n: nat)
    requires IsMajor(major) && IsHead(h, major, n)
    ensures PeekNext(h + rest) == Some(major)
    ensures n < TWO_64 && ReadUnsigned(h + rest) == Read(Some((if |h| == 1 then SIZE_1 else h[0] % 0x20, n)), |h|)
  {
    var s := h + rest;
    assert s[0] == h[0];
    if h[0] % 0x20 >= 24 {
      assert s[1..|h|] == h[1..];
      FromBigEndianBound(h[1..]);
      PowersOf256();
    }
  }

  lemma ReadIsHead(s: seq<byte>)
    requires ReadUnsigned(s).result.Some?
    ensures var r := ReadUnsigned(s); var major := s[0] / 0x20 * 0x20;
            PeekNext(s) == Some(major) && IsMajor(major) && IsHead(s[..r.used], major, r.result.value.1)
  {
    var r := ReadUnsigned(s);
    var h := s[..r.used];
    assert h[0] == s[0];
    if s[0] % 0x20 >= 24 { assert h[1..] == s[1..r.used]; }
  }

  /** An argument is read if and only if a well-formed head is at the front; then exactly its bytes are used. */
  lemma UnsignedIff(s: seq<byte>, major: byte, n: nat, k: nat)
    requires IsMajor(major)
    ensures k <= |s| && IsHead(s[..k], major, n) <==>
            && PeekNext(s) == Some(major) && ReadUnsigned(s).used == k
            && ReadUnsigned(s).result.Some? && ReadUnsigned(s).result.value.1 == n
    ensures PeekNext(s).None? <==> s == []
    ensures ReadUnsigned(s).result.Some? ==>
              ReadUnsigned(s).result.value.0 == if s[0] % 0x20 < 24 then 24 else s[0] % 0x20
  {
    if k <= |s| && IsHead(s[..k], major, n) {
      assert s == s[..k] + s[k..];
      HeadRead(s[..k], s[k..], major, n);
    }
    if ReadUnsigned(s).result.Some? { ReadIsHead(s); }
  }

  /** An int64 is read if and only if the head of a nonnegative number, or of -1 minus it, is at the front. */
  lemma SignedIff(s: seq<byte>, v: int, k: nat)
    ensures ReadSigned(s).result.Some? && ReadSigned(s).result.value.1 == v && ReadSigned(s).used == k <==>
            && -0x8000_0000_0000_0000 <= v < 0x8000_0000_0000_0000 && k <= |s|
            && if v >= 0 then IsHead(s[..k], UNSIGNED, v) else IsHead(s[..k], SIGNED, -1 - v)
  {
    if v >= 0 { UnsignedIff(s, UNSIGNED, v, k); } else { UnsignedIff(s, SIGNED, -1 - v, k); }
  }

  lemma SignedHeadBack(v: i64, rest: seq<byte>)
    ensures var h := Encode(CborWriterSpec.SignedItem(v));
            && ReadSigned(h + rest).result.Some? && ReadSigned(h + rest).result.value.1 == v
            && ReadSigned(h + rest).used == |h|
  {
    var h := Encode(CborWriterSpec.SignedItem(v));
    if v >= 0 { HeadIsHead(UNSIGNED, v); } else { HeadIsHead(SIGNED, -1 - v); }
    assert (h + rest)[..|h|] == h;
    SignedIff(h + rest, v, |h|);
  }

  lemma SignedWritten(c: CborWriterSpec.Config, s: CborWriterSpec.State, v: i64)
    requires s.Live? && |s.out| + 9 <= c.capacity
    ensures var s' := CborWriterSpec.Step(c, s, CborWriterSpec.WriteSigned(v));
            s'.Live? && s'.out == s.out + Encode(CborWriterSpec.SignedItem(v))
  {
  }

  /** So what the writer appends for any int64 is read as that number, and uses exactly those bytes. */
  lemma SignedBack(c: CborWriterSpec.Config, s: CborWriterSpec.State, v: i64, rest: seq<byte>)
    requires s.Live? && |s.out| + 9 <= c.capacity
    ensures var s' := CborWriterSpec.Step(c, s, CborWriterSpec.WriteSigned(v));
            && s'.Live? && s.out <= s'.out
            && var h := s'.out[|s.out|..];
            && ReadSigned(h + rest).result.Some? && ReadSigned(h + rest).result.value.1 == v
            && ReadSigned(h + rest).used == |h|
  {
    SignedWritten(c, s, v);
    var h := Encode(CborWriterSpec.SignedItem(v));
    assert (s.out + h)[|s.out|..] == h;
    SignedHeadBack(v, rest);
  }

  /** A string is read if and only if a head with its length and then its bytes are at the front. */
  lemma StringIff(s: seq<byte>, major: byte, data: seq<byte>, k: nat)
    requires IsMajor(major)
    ensures ReadString(s, major) == Read(Some(data), k) <==> k <= |s| && HeadThen(s[..k], major, |data|, data)
  {
    if k <= |s| && HeadThen(s[..k], major, |data|, data) {
      var h := k - |data|;
      assert s[..k][..h] == s[..h] && s[..k][h..] == s[h..k];
      UnsignedIff(s, major, |data|, h);
    }
    if ReadString(s, major) == Read(Some(data), k) {
      var h := ReadUnsigned(s).used;
      UnsignedIff(s, major, |data|, h);
      assert s[..k][..h] == s[..h] && s[..k][h..] == s[h..k];
    }
  }

  lemma CountIff(s: seq<byte>, major: byte, n: nat, k: nat)
    requires IsMajor(major)
    ensures ReadCount(s, major) == Read(Some(n), k) <==>
            k <= |s| && IsHead(s[..k], major, n) && n < 0xFFFF_FFFF_FFFF_FFFF
  {
    UnsignedIff(s, major, n, k);
  }

  /** A call for another type leaves the reader where it was, so that the right call can still be made. */
  lemma OtherTypeStays(s: seq<byte>, major: byte)
    requires s == [] || s[0] / 0x20 * 0x20 != major
    ensures ReadString(s, major) == Read(None, 0) && ReadCount(s, major) == Read(None, 0)
  {
  }

  // ---- items ----

  /** Every encoding of a readable item, shortest or not, is read as that item, whatever follows. */
  lemma {:induction false} EncodingRead(s: seq<byte>, rest: seq<byte>, item: Item)
    requires Encodes(s, item) && Readable(item)
    ensures ReadItem(s + rest) == Some((item, |s|))
    decreases item, 1
  {
    var t := s + rest;
    assert t[..|s|] == s;
    match item
    case Unsigned(n) => UnsignedIff(t, UNSIGNED, n, |s|);
    case Negative(n) =>
      UnsignedIff(t, SIGNED, n, |s|);
      SignedIff(t, -1 - n, |s|);
    case ByteString(data) => StringRead(t, BYTE_STRING, data, |s|);
    case TextString(text) => StringRead(t, TEXT_STRING, text, |s|);
    case Array(items) =>
      var k :| 0 <= k <= |s| && IsHead(s[..k], ARRAY, |items|) && EncodesAll(s[k..], items);
      BodyRead(s, rest, ARRAY, k, |items|, items);
    case Map(entries) =>
      var k :| 0 <= k <= |s| && IsHead(s[..k], MAP, |entries| / 2) && EncodesAll(s[k..], entries);
      BodyRead(s, rest, MAP, k, |entries| / 2, entries);
    case Simple(value) => assert t[0] == SimpleByte(value);
  }

  lemma StringRead(t: seq<byte>, major: byte, data: seq<byte>, k: nat)
    requires IsMajor(major) && k <= |t| && HeadThen(t[..k], major, |data|, data)
    ensures PeekNext(t) == Some(major) && ReadString(t, major) == Read(Some(data), k)
  {
    StringIff(t, major, data, k);
  }

  lemma {:induction false} BodyRead(s: seq<byte>, rest: seq<byte>, major: byte, k: nat, n: nat, items: seq<Item>)
    requires IsMajor(major) && k <= |s| && IsHead(s[..k], major, n) && EncodesAll(s[k..], items)
    requires n < 0xFFFF_FFFF_FFFF_FFFF && |items| == ItemCount(major, n) && AllReadable(items)
    ensures PeekNext(s + rest) == Some(major) && ReadBody(s + rest, major) == Some((items, |s|))
    decreases items, 1
  {
    var t := s + rest;
    assert t[..k] == s[..k] && t[k..] == s[k..] + rest;
    UnsignedIff(t, major, n, k);
    CountIff(t, major, n, k);
    EncodingsRead(s[k..], rest, items);
  }

  lemma Glued(a: seq<byte>, b: seq<byte>, rest: seq<byte>)
    ensures a + b + rest == a + (b + rest) && (a + (b + rest))[|a|..] == b + rest
  {
  }

  lemma ItemsNext(s: seq<byte>, k: nat, t: seq<byte>, items: seq<Item>, used: nat)
    requires items != [] && k <= |s| && k <= used && t == s[k..] && ReadItem(s) == Some((items[0], k))
    requires ReadItems(t, |items[1..]|) == Some((items[1..], used - k))
    ensures ReadItems(s, |items|) == Some((items, used))
  {
    assert [items[0]] + items[1..] == items;
  }

  lemma FirstEncoding(s: seq<byte>, items: seq<Item>) returns (a: seq<byte>, b: seq<byte>)
    requires items != [] && EncodesAll(s, items)
    ensures s == a + b && Encodes(a, items[0]) && EncodesAll(b, items[1..])
  {
    var k :| 0 <= k <= |s| && Encodes(s[..k], items[0]) && EncodesAll(s[k..], items[1..]);
    a, b := s[..k], s[k..];
  }

  lemma {:induction false} EncodingsRead(s: seq<byte>, rest: seq<byte>, items: seq<Item>)
    requires EncodesAll(s, items) && AllReadable(items)
    ensures ReadItems(s + rest, |items|) == Some((items, |s|))
    decreases items, 0
  {
    if items != [] {
      var a, b := FirstEncoding(s, items);
      EncodingRead(a, b + rest, items[0]);
      EncodingsRead(b, rest, items[1..]);
      Glued(a, b, rest);
      ItemsNext(s + rest, |a|, b + rest, items, |s|);
    }
  }

  /** What is read is an encoding, of a readable item. */
  lemma {:induction false} ReadIsEncoding(s: seq<byte>)
    requires ReadItem(s).Some?
    ensures var (item, used) := ReadItem(s).value; Encodes(s[..used], item) && Readable(item)
    decreases |s|, 2
  {
    var (item, used) := ReadItem(s).value;
    match item
    case Unsigned(n) => UnsignedIff(s, UNSIGNED, n, used);
    case Negative(n) => SignedIff(s, -1 - n, used);
    case ByteString(data) => StringIff(s, BYTE_STRING, data, used);
    case TextString(text) => StringIff(s, TEXT_STRING, text, used);
    case Array(items) =>
      BodyIsEncoding(s, ARRAY);
      ArrayEncodes(s[..used], items);
    case Map(entries) =>
      BodyIsEncoding(s, MAP);
      MapEncodes(s[..used], entries);
    case Simple(value) => assert s[..1] == [s[0]];
  }

  ghost predicate EncodesBody(s: seq<byte>, major: byte, n: nat, items: seq<Item>)
    requires IsMajor(major)
  {
    exists k :: 0 <= k <= |s| && IsHead(s[..k], major, n) && EncodesAll(s[k..], items)
  }

  lemma ArrayParts(s: seq<byte>, items: seq<Item>) returns (h: seq<byte>, body: seq<byte>)
    requires Encodes(s, Array(items))
    ensures s == h + body && IsHead(h, ARRAY, |items|) && EncodesAll(body, items)
  {
    var k :| 0 <= k <= |s| && IsHead(s[..k], ARRAY, |items|) && EncodesAll(s[k..], items);
    h, body := s[..k], s[k..];
  }

  lemma MapParts(s: seq<byte>, entries: seq<Item>) returns (h: seq<byte>, body: seq<byte>)
    requires Encodes(s, Map(entries))
    ensures s == h + body && |entries| % 2 == 0 && IsHead(h, MAP, |entries| / 2) && EncodesAll(body, entries)
  {
    var k :| 0 <= k <= |s| && IsHead(s[..k], MAP, |entries| / 2) && EncodesAll(s[k..], entries);
    h, body := s[..k], s[k..];
  }

  lemma ArrayEncodes(s: seq<byte>, items: seq<Item>)
    requires EncodesBody(s, ARRAY, |items|, items)
    ensures Encodes(s, Array(items))
  {
  }

  lemma MapEncodes(s: seq<byte>, entries: seq<Item>)
    requires EncodesBody(s, MAP, |entries| / 2, entries) && |entries| % 2 == 0
    ensures Encodes(s, Map(entries))
  {
  }

  lemma {:induction false} BodyIsEncoding(s: seq<byte>, major: byte)
    requires IsMajor(major) && ReadBody(s, major).Some?
    ensures var (items, used) := ReadBody(s, major).value; var n := ReadCount(s, major).result.value;
            && AllReadable(items) && |items| == ItemCount(major, n) && n < 0xFFFF_FFFF_FFFF_FFFF
            && EncodesBody(s[..used], major, n, items)
    decreases |s|, 1
  {
    var r := ReadCount(s, major);
    var k, n := r.used, r.result.value;
    CountIff(s, major, n, k);
    ReadsAreEncodings(s[k..], ItemCount(major, n));
    var (items, used) := ReadBody(s, major).value;
    assert s[..used][..k] == s[..k] && s[..used][k..] == s[k..][..used - k];
  }

  lemma {:induction false} ReadsAreEncodings(s: seq<byte>, n: nat)
    requires ReadItems(s, n).Some?
    ensures var (items, used) := ReadItems(s, n).value; EncodesAll(s[..used], items) && AllReadable(items)
    decreases |s|, 3
  {
    if n > 0 {
      var (item, k) := ReadItem(s).value;
      ReadIsEncoding(s);
      ReadsAreEncodings(s[k..], n - 1);
      var (items, used) := ReadItems(s, n).value;
      assert items[1..] == ReadItems(s[k..], n - 1).value.0;
      assert s[..used][..k] == s[..k] && s[..used][k..] == s[k..][..used - k];
    }
  }

  /** On every input: an item is read, with so many bytes, if and only if they encode it and it is readable. */
  lemma ReadIff(s: seq<byte>, item: Item, used: nat)
    ensures ReadItem(s) == Some((item, used)) <==> used <= |s| && Encodes(s[..used], item) && Readable(item)
  {
    if ReadItem(s) == Some((item, used)) { ReadIsEncoding(s); }
    if used <= |s| && Encodes(s[..used], item) && Readable(item) {
      assert s == s[..used] + s[used..];
      EncodingRead(s[..used], s[used..], item);
    }
  }
}
