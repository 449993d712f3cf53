/**
 The CBOR reader: a cursor into the caller's bytes and the number of bytes left. Every call is
 proved to return what CborReaderSpec says of the unread bytes and to move the cursor by as much.
 */
module CborReader {
  import opened Bytes
  import opened CborFormat
  import opened CborReaderSpec

  lemma SuffixSlice(bytes: seq<byte>, at: nat, k: nat, n: nat)
    requires at + k + n <= |bytes|
    ensures bytes[at..][k..k + n] == bytes[at + k..at + k + n]
    ensures bytes[at..][k + n..] == bytes[at + k + n..]
  {
  }

  class Reader {
    const bytes: seq<byte>
    var cbor: nat
    var cborSize: nat

    ghost predicate Valid()
      reads this
    {
      cbor + cborSize == |bytes|
    }

    ghost function Unread(): seq<byte>
      reads this
      requires Valid()
    {
      bytes[cbor..]
    }

    constructor (bytes: seq<byte>)
      ensures Valid() && this.bytes == bytes && Unread() == bytes
    {
      this.bytes := bytes;
      cbor := 0;
      cborSize := |bytes|;
    }

    method Peek() returns (major: Option<byte>)
      requires Valid()
      ensures major == PeekNext(Unread())
    {
      if cborSize == 0 {
        return None;
      }
      return Some(bytes[cbor] / 0x20 * 0x20);
    }

    method End() returns (ended: bool)
      requires Valid()
      ensures ended <==> Unread() == []
    {
      ended := cborSize == 0;
    }

    method Unsigned() returns (r: Option<(nat, u64)>)
      requires Valid()
      modifies this
      ensures Valid()
      ensures var spec := ReadUnsigned(old(Unread()));
        r == spec.result && Unread() == old(Unread())[spec.used..]
    {
      if cborSize == 0 {
        return None;
      }
      ghost var s := Unread();
      var size := bytes[cbor] % 0x20;
      cbor := cbor + 1;
      cborSize := cborSize - 1;
      if size < SIZE_1 {
        return Some((SIZE_1, size));
      }
      if size >= 28 {
        return None;
      }
      var length := FollowingBytes(size);
      if length > cborSize {
        return None;
      }
      ghost var digits := s[1..1 + length];
      assert FromBigEndian(digits) < TWO_64 by { FromBigEndianBound(digits); PowersOf256(); }
      assert Unread()[..length] == digits;
      var value := Digits(length);
      return Some((size, value));
    }

    /** The loop that shifts in `length` bytes, most significant first. */
    method Digits(length: nat) returns (value: nat)
      requires Valid() && length <= cborSize
      modifies this
      ensures Valid() && value == FromBigEndian(old(Unread())[..length]) && Unread() == old(Unread())[length..]
    {
      ghost var s := Unread();
      cborSize := cborSize - length;
      value := 0;
      var left := length;
      while left > 0
        invariant 0 <= left <= length && cbor == old(cbor) + (length - left)
        invariant value == FromBigEndian(s[..length - left])
        invariant cborSize == old(cborSize) - length
      {
        left := left - 1;
        assert s[..length - left][..length - left - 1] == s[..length - left - 1];
        value := value * 0x100 + bytes[cbor];
        cbor := cbor + 1;
      }
    }

    method Signed() returns (r: Option<(nat, i64)>)
      requires Valid()
      modifies this
      ensures Valid()
      ensures var spec := ReadSigned(old(Unread()));
        r == spec.result && Unread() == old(Unread())[spec.used..]
    {
      var major := Peek();
      var u := Unsigned();
      if u == None || u.value.1 > INT64_MAX {
        return None;
      }
      if major == Some(UNSIGNED) {
        return Some((u.value.0, u.value.1));
      } else if major == Some(SIGNED) {
        return Some((u.value.0, Negated(AsInt64(u.value.1 + 1))));
      } else {
        return None;
      }
    }

    /** `cbor_read_data` for BYTE_STRING, `cbor_read_text` for TEXT_STRING. */
    method String(major: byte) returns (r: Option<seq<byte>>)
      requires Valid()
      modifies this
      ensures Valid()
      ensures var spec := ReadString(old(Unread()), major);
        r == spec.result && Unread() == old(Unread())[spec.used..]
    {
      var next := Peek();
      if next != Some(major) {
        return None;
      }
      ghost var s := Unread();
      var u := Unsigned();
      if u == None || cborSize < u.value.1 {
        return None;
      }
      var size := u.value.1;
      ghost var k := ReadUnsigned(s).used;
      assert |Unread()| == |s| - k;
      SuffixSlice(bytes, cbor - k, k, size);
      r := Some(bytes[cbor..cbor + size]);
      cbor := cbor + size;
      cborSize := cborSize - size;
    }

    method SimpleByte() returns (r: Option<byte>)
      requires Valid()
      modifies this
      ensures Valid()
      ensures var spec := ReadSimple(old(Unread()));
        r == spec.result && Unread() == old(Unread())[spec.used..]
    {
      if cborSize == 0 {
        return None;
      }
      cborSize := cborSize - 1;
      r := Some(bytes[cbor]);
      cbor := cbor + 1;
    }

    /** `cbor_read_array` for ARRAY, `cbor_read_map` for MAP. */
    method ElementCount(major: byte) returns (r: Option<nat>)
      requires Valid()
      modifies this
      ensures Valid()
      ensures var spec := ReadCount(old(Unread()), major);
        r == spec.result && Unread() == old(Unread())[spec.used..]
    {
      var next := Peek();
      if next != Some(major) {
        return None;
      }
      var u := Unsigned();
      if u == None || u.value.1 >= SIZE_MAX {
        return None;
      }
      return Some(u.value.1);
    }
  }

  /** A caller that reads the next item by peeking and making the matching calls. */
  method NextItem(r: Reader) returns (item: Option<Item>)
    requires r.Valid()
    modifies r
    ensures r.Valid()
    ensures match ReadItem(old(r.Unread()))
      case None => item == None
      case Some((i, used)) => item == Some(i) && r.Unread() == old(r.Unread())[used..]
    decreases r.cborSize, 1
  {
    item := None;
    var major := r.Peek();
    ghost var s := r.Unread();
    assert major.Some? ==> ReadItem(s) == ReadTyped(s, major.value);
    if major == Some(UNSIGNED) {
      var u := r.Unsigned();
      item := if u == None then None else Some(Unsigned(u.value.1));
    } else if major == Some(SIGNED) {
      var v := r.Signed();
      item := if v == None || v.value.1 >= 0 then None else Some(Negative(-1 - v.value.1));
    } else if major == Some(BYTE_STRING) {
      var data := r.String(BYTE_STRING);
      item := if data == None then None else Some(ByteString(data.value));
    } else if major == Some(TEXT_STRING) {
      var text := r.String(TEXT_STRING);
      item := if text == None then None else Some(TextString(text.value));
    } else if major == Some(ARRAY) {
      var items := Body(r, ARRAY);
      item := if items == None then None else Some(Array(items.value));
    } else if major == Some(MAP) {
      var entries := Body(r, MAP);
      item := if entries == None then None else Some(Map(entries.value));
    } else if major == Some(SIMPLE) {
      var b := r.SimpleByte();
      var v := SimpleOf(b.value);
      item := if v == None then None else Some(Simple(v.value));
    }
  }

  method Body(r: Reader, major: byte) returns (items: Option<seq<Item>>)
    requires r.Valid()
    modifies r
    ensures r.Valid()
    ensures match ReadBody(old(r.Unread()), major)
      case None => items == None
      case Some((all, used)) => items == Some(all) && r.Unread() == old(r.Unread())[used..]
    decreases r.cborSize, 0
  {
    var count := r.ElementCount(major);
    if count == None {
      return None;
    }
    items := Items(r, ItemCount(major, count.value));
  }

  method Items(r: Reader, n: nat) returns (items: Option<seq<Item>>)
    requires r.Valid()
    modifies r
    ensures r.Valid()
    ensures match ReadItems(old(r.Unread()), n)
      case None => items == None
      case Some((all, used)) => items == Some(all) && r.Unread() == old(r.Unread())[used..]
    decreases r.cborSize, 2
  {
    if n == 0 {
      return Some([]);
    }
    var item := NextItem(r);
    if item == None {
      return None;
    }
    var rest := Items(r, n - 1);
    items := if rest == None then None else Some([item.value] + rest.value);
  }
}
