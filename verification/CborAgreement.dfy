/**
 The two decoders, the C reader and the debugging tool's, agree on every input: whatever well-formed encoding is at the
 front, with heads of any width, both take exactly its bytes for the same item.
 */
module CborAgreement {
  import opened Bytes
  import opened CborFormat
  import opened CborReaderSpec
  import opened CborAccepted
  import opened CborPython
  import Unicode

  lemma UintOfHead(h: seq<byte>, rest: seq<byte>, major: byte, n: nat)
    requires IsMajor(major) && IsHead(h, major, n)
    ensures var s := h + rest;
            && n < TWO_64 && s != [] && s[0] / 0x20 * 0x20 == major
            && ReadUint(s) == Done(n, |h|) && Drop(s, |h|) == rest
  {
    var s := h + rest;
    HeadRead(h, rest, major, n);
    assert s[0] == h[0] && s[|h|..] == rest;
    if h[0] % 0x20 >= 24 {
      assert s[1..|h|] == h[1..];
      if |h| == 9 {
        SplitWord(s[1..9]);
        assert s[1..9][..4] == s[1..5] && s[1..9][4..] == s[5..9];
      }
    }
  }

  lemma ScalarDecoded(s: seq<byte>, rest: seq<byte>, item: Item)
    requires (item.Unsigned? || item.Negative? || item.Simple?) && Encodes(s, item)
    ensures Decode(s + rest) == OutcomeOf(Eval(item), |s|)
  {
    if !item.Simple? { UintOfHead(s, rest, if item.Unsigned? then UNSIGNED else SIGNED, item.n); }
  }

  lemma StringDecoded(s: seq<byte>, rest: seq<byte>, item: Item)
    requires (item.ByteString? || item.TextString?) && Encodes(s, item)
    ensures Decode(s + rest) == OutcomeOf(Eval(item), |s|)
  {
    if item.ByteString? {
      HeadThenDecoded(s, rest, BYTE_STRING, item.data);
    } else {
      HeadThenDecoded(s, rest, TEXT_STRING, item.text);
    }
  }

  lemma HeadThenDecoded(s: seq<byte>, rest: seq<byte>, major: byte, data: seq<byte>)
    requires IsMajor(major) && HeadThen(s, major, |data|, data)
    ensures major == BYTE_STRING ==> Decode(s + rest) == Done(PyBytes(data), |s|)
    ensures major == TEXT_STRING ==> Decode(s + rest) == Done(PyStr(Unicode.DecodeText(data)), |s|)
  {
    var h := s[..|s| - |data|];
    assert s == h + data;
    Glued(h, data, rest);
    UintOfHead(h, data + rest, major, |data|);
    StringOf(s + rest, |data|, |h|, data, rest);
  }

  lemma StringOf(s: seq<byte>, n: nat, used: nat, data: seq<byte>, rest: seq<byte>)
    requires s != [] && n == |data| && ReadUint(s) == Done(n, used) && Drop(s, used) == data + rest
    ensures s[0] / 0x20 == 2 ==> Decode(s) == Done(PyBytes(data), used + n)
    ensures s[0] / 0x20 == 3 ==> Decode(s) == Done(PyStr(Unicode.DecodeText(data)), used + n)
  {
    assert Take(data + rest, n) == data;
  }

  /** On every encoding, shortest or not and whatever follows, the tool uses exactly its bytes and returns its value. */
  lemma {:induction false} EncodingDecoded(s: seq<byte>, rest: seq<byte>, item: Item)
    requires Encodes(s, item)
    ensures Decode(s + rest) == OutcomeOf(Eval(item), |s|)
    decreases item, 1
  {
    match item
    case Array(items) =>
      var h, body := ArrayParts(s, items);
      ArrayDecoded(h, body, rest, items);
    case Map(entries) =>
      var h, body := MapParts(s, entries);
      MapDecoded(h, body, rest, entries);
    case ByteString(_) => StringDecoded(s, rest, item);
    case TextString(_) => StringDecoded(s, rest, item);
    case _ => ScalarDecoded(s, rest, item);
  }

  lemma {:induction false} ArrayDecoded(h: seq<byte>, body: seq<byte>, rest: seq<byte>, items: seq<Item>)
    requires IsHead(h, ARRAY, |items|) && EncodesAll(body, items)
    ensures Decode(h + body + rest) == OutcomeOf(Eval(Array(items)), |h + body|)
    decreases items, 2
  {
    Glued(h, body, rest);
    UintOfHead(h, body + rest, ARRAY, |items|);
    DecodeArray(h + (body + rest), |items|, |h|);
    EncodingsDecoded(body, rest, items);
  }

  lemma {:induction false} MapDecoded(h: seq<byte>, body: seq<byte>, rest: seq<byte>, entries: seq<Item>)
    requires |entries| % 2 == 0 && IsHead(h, MAP, |entries| / 2) && EncodesAll(body, entries)
    ensures Decode(h + body + rest) == OutcomeOf(Eval(Map(entries)), |h + body|)
    decreases entries, 2
  {
    var n := |entries| / 2;
    assert 2 * n == |entries|;
    Glued(h, body, rest);
    UintOfHead(h, body + rest, MAP, n);
    EncodingsDecoded(body, rest, entries);
    DecodeMapOf(h + (body + rest), n, |h|, EvalAll(entries), |body|);
  }

  lemma ListNext(s: seq<byte>, k: nat, t: seq<byte>, items: seq<Item>, used: nat)
    requires items != [] && k <= used && t == Drop(s, k) && Decode(s) == OutcomeOf(Eval(items[0]), k)
    requires DecodeList(t, |items[1..]|) == OutcomeOf(EvalAll(items[1..]), used - k)
    ensures DecodeList(s, |items|) == OutcomeOf(EvalAll(items), used)
  {
  }

  lemma {:induction false} EncodingsDecoded(s: seq<byte>, rest: seq<byte>, items: seq<Item>)
    requires EncodesAll(s, items)
    ensures DecodeList(s + rest, |items|) == OutcomeOf(EvalAll(items), |s|)
    decreases items, 0
  {
    if items != [] {
      var a, b := FirstEncoding(s, items);
      EncodingDecoded(a, b + rest, items[0]);
      EncodingsDecoded(b, rest, items[1..]);
      Glued(a, b, rest);
      ListNext(s + rest, |a|, b + rest, items, |s|);
    }
  }

  /** Wherever the C reader finds an item, the tool finds its value, and both use the same bytes. */
  lemma DecodersAgree(s: seq<byte>)
    requires ReadItem(s).Some?
    ensures var (item, used) := ReadItem(s).value; Decode(s) == OutcomeOf(Eval(item), used)
  {
    var (item, used) := ReadItem(s).value;
    ReadIff(s, item, used);
    EncodingDecoded(s[..used], s[used..], item);
    assert s == s[..used] + s[used..];
  }

  // ---- maps with equal keys ----

  /** What a dict holds under a key. */
  function Lookup(m: seq<Entry>, k: Py): Option<Py> {
    if m == [] then None else if KeyOf(m[0].key) == KeyOf(k) then Some(m[0].value) else Lookup(m[1..], k)
  }

  /** The last of the values stored under a key. */
  function LastUnder(pairs: seq<Entry>, k: Py): Option<Py> {
    if pairs == [] then None
    else
      var later := LastUnder(pairs[1..], k);
      if later.Some? then later else if KeyOf(pairs[0].key) == KeyOf(k) then Some(pairs[0].value) else None
  }

  lemma {:induction false} StoreLookup(m: seq<Entry>, k: Py, v: Py, key: Py)
    ensures Lookup(Store(m, k, v), key) == if KeyOf(k) == KeyOf(key) then Some(v) else Lookup(m, key)
  {
    if m != [] && KeyOf(m[0].key) != KeyOf(k) { StoreLookup(m[1..], k, v, key); }
  }

  /** Of several entries under equal keys a dict keeps the last value. */
  lemma {:induction false} LastWins(m: seq<Entry>, pairs: seq<Entry>, key: Py)
    ensures Lookup(StoreAll(m, pairs), key) ==
            if LastUnder(pairs, key).Some? then LastUnder(pairs, key) else Lookup(m, key)
    decreases |pairs|
  {
    if pairs != [] {
      LastWins(Store(m, pairs[0].key, pairs[0].value), pairs[1..], key);
      StoreLookup(m, pairs[0].key, pairs[0].value, key);
    }
  }

  // ---- keys ----

  lemma EvalKind(item: Item)
    requires Eval(item).Some?
    ensures Eval(item).value.PyList? <==> item.Array?
    ensures Eval(item).value.PyDict? <==> item.Map?
  {
  }

  /** No entry has an array or a map for its key. */
  predicate ScalarKeys(entries: seq<Item>) {
    |entries| < 2 || (!entries[0].Array? && !entries[0].Map? && ScalarKeys(entries[2..]))
  }

  lemma {:induction false} HashableIff(entries: seq<Item>, vs: seq<Py>)
    requires EvalAll(entries) == Some(vs)
    ensures HashableKeys(Pairs(vs)) <==> ScalarKeys(entries)
    decreases |entries|
  {
    if |entries| >= 2 {
      EvalKind(entries[0]);
      assert entries[1..][1..] == entries[2..] && vs[1..] == EvalAll(entries[1..]).value;
      assert vs[2..] == vs[1..][1..] == EvalAll(entries[2..]).value;
      HashableIff(entries[2..], vs[2..]);
    }
  }

  /** A map raises if and only if one of its items does or a key is an array or a map. */
  lemma MapRaisesIff(entries: seq<Item>)
    ensures Eval(Map(entries)).None? <==> EvalAll(entries).None? || !ScalarKeys(entries)
  {
    if EvalAll(entries).Some? { HashableIff(entries, EvalAll(entries).value); }
  }

  /** To a dict True is the key 1 and False the key 0, and no other number. */
  lemma BoolsAreKeys(b: bool, n: u64, v: Item, w: Item)
    requires Decodable(v) && Decodable(w)
    ensures Decodable(Map([Simple(if b then True else False), v, Unsigned(n), w])) <==> n != if b then 1 else 0
  {
    var key := Simple(if b then True else False);
    var entries := [key, v, Unsigned(n), w];
    var vs := ValueAll(entries);
    ValueAllAt(entries, 0);
    ValueAllAt(entries, 2);
    var ps := Pairs(vs);
    assert ps[0].key == vs[0] && ps[1..] == Pairs(vs[2..]) && ps[1] == Pairs(vs[2..])[0];
    assert ps[1].key == vs[2];
    assert HashableKeys(ps) by { assert ps[1..][1..] == []; }
    var two, three := [Unsigned(n), w], [v, Unsigned(n), w];
    assert [w][1..] == [] && two[1..] == [w] && three[1..] == two && entries[1..] == three;
    assert AllDecodable([w]) && AllDecodable(two) && AllDecodable(three) && AllDecodable(entries);
  }

  // ---- what the tool makes of other input ----

  /** The end of the input is None, and so are tags and other simple values, each one byte; reserved widths are 0. */
  lemma OddInput(s: seq<byte>)
    ensures s == [] ==> Decode(s) == Done(PyNone, 0)
    ensures s != [] && (0xC0 <= s[0] < 0xF4 || s[0] > 0xF5) ==> Decode(s) == Done(PyNone, 1)
    ensures s != [] && 0x1C <= s[0] < 0x20 ==> Decode(s) == Done(PyInt(0), 1)
  {
  }

  /** A string that is cut short is what there is of it, but the cursor moves as far as announced. */
  lemma CutShort(h: seq<byte>, data: seq<byte>, n: nat)
    requires IsHead(h, BYTE_STRING, n) && |data| <= n
    ensures Decode(h + data) == Done(PyBytes(data), |h| + n)
  {
    UintOfHead(h, data, BYTE_STRING, n);
  }

  function Nones(n: nat): seq<Py> {
    if n == 0 then [] else [PyNone] + Nones(n - 1)
  }

  /** Elements beyond the end are None. */
  lemma {:induction false} MissingAreNone(n: nat)
    ensures DecodeList([], n) == Done(Nones(n), 0)
  {
    if n > 0 { MissingAreNone(n - 1); }
  }
}
