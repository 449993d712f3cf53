/**
 The parser as it runs: an offset and a nesting depth moved over the content, with loops and early exits.
 Each method is proved against its function in JsonParse, and builds a well-formed tree of new nodes with the
 contents of the value that function gives. Whatever the bytes are, the offset stays within the content and the
 depth within the limit, and a successful parse leaves the depth as it found it.
 */
module JsonParser {
  import opened Bytes
  import opened JsonText
  import opened JsonParse
  import opened JsonString
  import opened Unicode
  import opened JsonList
  import opened JsonTree

  // ---- second pass of string parsing ----

  function ShiftedBy6(n: nat, k: nat): nat {
    if k == 0 then n else ShiftedBy6(n, k - 1) / 0x40
  }

  /** Byte `k` of the encoding, from the shifts the code performs. */
  lemma Utf8Bytes(n: CodePoint, k: nat)
    requires k < |Utf8(n)|
    ensures var len := |Utf8(n)|;
            && (k > 0 ==> Utf8(n)[k] == 0x80 + ShiftedBy6(n, len - 1 - k) % 0x40)
            && Utf8(n)[0] == Mark(len) + ShiftedBy6(n, len - 1)
  {
    var a := n / 0x40;
    var b := a / 0x40;
    assert b == n / 0x1000 && b / 0x40 == n / 0x4_0000;
    assert ShiftedBy6(n, 0) == n && ShiftedBy6(n, 1) == a;
    assert ShiftedBy6(n, 2) == b && ShiftedBy6(n, 3) == b / 0x40;
  }

  function Mark(length: nat): nat {
    if length <= 1 then 0 else if length == 2 then 0xC0 else if length == 3 then 0xE0 else 0xF0
  }

  lemma Extends(output: array<byte>, n: nat, text: seq<byte>)
    requires n + |text| <= output.Length && forall k :: n <= k < n + |text| ==> output[k] == text[k - n]
    ensures output[..n + |text|] == output[..n] + text
  {
  }

  /** Writes the UTF-8 of `codepoint` at `output[n..]`, last byte first. */
  method EncodeUtf8(codepoint: CodePoint, output: array<byte>, n: nat) returns (m: nat)
    requires n + |Utf8(codepoint)| <= output.Length
    modifies output
    ensures m == n + |Utf8(codepoint)| && output[..m] == old(output[..n]) + Utf8(codepoint)
  {
    ghost var text := Utf8(codepoint);
    var length :=
      if codepoint < 0x80 then 1 else if codepoint < 0x800 then 2 else if codepoint < 0x1_0000 then 3 else 4;
    var position, rest: nat := length - 1, codepoint;
    while position > 0
      invariant position < length == |text| && rest == ShiftedBy6(codepoint, length - 1 - position)
      invariant output[..n] == old(output[..n])
      invariant forall k :: n + position < k < n + length ==> output[k] == text[k - n]
    {
      Utf8Bytes(codepoint, position);
      output[n + position] := 0x80 + rest % 0x40;
      rest := rest / 0x40;
      position := position - 1;
    }
    Utf8Bytes(codepoint, 0);
    output[n] := Mark(length) + rest;
    m := n + length;
    assert output[n] == text[0];
    Extends(output, n, text);
  }

  method HexDigits(c: seq<byte>, i: nat) returns (h: nat)
    requires i + 4 <= |c|
    ensures h == Hex4(c, i)
  {
    h := 0;
    var k := 0;
    while k < 4
      invariant k <= 4
      invariant forall j :: i <= j < i + k ==> HexValue(c[j]).Ok?
      invariant k == 1 ==> h == HexValue(c[i]).value * 16
      invariant k == 2 ==> h == (HexValue(c[i]).value * 16 + HexValue(c[i + 1]).value) * 16
      invariant k == 3 ==>
        h == ((HexValue(c[i]).value * 16 + HexValue(c[i + 1]).value) * 16 + HexValue(c[i + 2]).value) * 16
      invariant k == 0 ==> h == 0
      invariant k == 4 ==> h == Hex4(c, i)
    {
      var digit := HexValue(c[i + k]);
      if digit.Fail? { return 0; }
      h := h + digit.value;
      if k < 3 { h := h * 16; }
      k := k + 1;
    }
  }

  /** The code point of one `\u` sequence or a surrogate pair; `used` is 0 if there is none. */
  method DecodeUtf16(c: seq<byte>, i: nat, end: nat) returns (used: nat, codepoint: CodePoint)
    requires i <= end < |c|
    ensures (used == 0) == Utf16At(c, i, end).Fail?
    ensures used != 0 ==> used == Utf16At(c, i, end).off && codepoint == Utf16At(c, i, end).value
  {
    if end - i < 6 { return 0, 0; }
    var first := HexDigits(c, i + 2);
    if 0xDC00 <= first <= 0xDFFF { return 0, 0; }
    if 0xD800 <= first <= 0xDBFF {
      if end - (i + 6) < 6 { return 0, 0; }
      if c[i + 6] != BACKSLASH || c[i + 7] != LETTER_U { return 0, 0; }
      var second := HexDigits(c, i + 8);
      if second < 0xDC00 || second > 0xDFFF { return 0, 0; }
      LowTenBits(first, second);
      return 12, 0x1_0000 + (first % 0x400) * 0x400 + second % 0x400;
    }
    return 6, first;
  }

  lemma LowTenBits(first: nat, second: nat)
    requires 0xD800 <= first <= 0xDBFF && 0xDC00 <= second <= 0xDFFF
    ensures first % 0x400 == first - 0xD800 && second % 0x400 == second - 0xDC00
  {
  }

  /** One unit of the second pass, written at `output[n..]`; `used` is 0 if the text is refused. */
  method UnescapeUnit(c: seq<byte>, i: nat, end: nat, output: array<byte>, n: nat) returns (used: nat, m: nat)
    requires i < end < |c|
    requires Unit(c, i, end).Ok? ==> n + |Unit(c, i, end).value| <= output.Length
    modifies output
    ensures (used == 0) == Unit(c, i, end).Fail?
    ensures var r := Unit(c, i, end);
            r.Ok? ==>
              used == r.off && m == n + |r.value| <= output.Length && output[..m] == old(output[..n]) + r.value
  {
    if c[i] == BACKSLASH && c[i + 1] == LETTER_U {
      var codepoint;
      used, codepoint := DecodeUtf16(c, i, end);
      m := n;
      if used != 0 { m := EncodeUtf8(codepoint, output, n); }
      return;
    }
    var b := c[i];
    used := 1;
    if c[i] == BACKSLASH {
      var escape := Unescaped(c[i + 1]);
      if escape.Fail? { return 0, n; }
      b := escape.value;
      used := 2;
    }
    output[n] := b;
    m := n + 1;
  }

  /** The second pass over the literal whose closing quote is at `end`, into a buffer of `size` bytes. */
  method SecondPass(c: seq<byte>, start: nat, end: nat, size: nat) returns (r: Option<seq<byte>>, stop: nat)
    requires start <= end < |c| && Visited(c, start, end) && size == Weight(c, start, end) + 2
    ensures start <= stop <= end + 1
    ensures var u := Unescape(c, start, end, []); r.Some? == u.Ok? && (r.Some? ==> r.value == u.value)
  {
    ghost var limit := Weight(c, start, end);
    var output := new byte[size];
    var input, written: nat := start, 0;
    RoomBound(c, start, start, end);
    assert output[..0] == [];
    while input < end
      invariant start <= input <= end + 1 && written <= Room(c, start, input, end) <= limit
      invariant Unescape(c, input, end, output[..written]) == Unescape(c, start, end, [])
      decreases end + 1 - input
    {
      UnitFits(c, start, input, end);
      ghost var before := output[..written];
      var unit := Unit(c, input, end);
      if unit.Ok? { RoomBound(c, start, input + unit.off, end); }
      var used, m := UnescapeUnit(c, input, end, output, written);
      if used == 0 { return None, input; }
      assert Unescape(c, input, end, before) == Unescape(c, input + used, end, before + unit.value);
      input, written := input + used, m;
    }
    ghost var text := output[..written];
    output[written] := NUL;
    assert output[..written] == text;
    return Some(output[..written]), input;
  }

  lemma {:induction false} RoomBound(c: seq<byte>, s: nat, k: nat, end: nat)
    requires s <= k && s <= end <= |c|
    ensures Room(c, s, k, end) <= Weight(c, s, end)
  {
    if k < end { WeightAtLeast(c, s, k, end - k); }
  }

  // ---- the parser ----

  /** The loop over the elements stopped at `q` with `items`: a success exactly on a closing bracket. */
  ghost predicate ElementsEnd(c: seq<byte>, q: nat, items: seq<Json>, spec: Parsed<seq<Json>>) {
    spec.Ok? == Sees(c, q, CLOSE_BRACKET) && (spec.Ok? ==> spec.value == items && spec.off == q + 1)
  }

  ghost predicate MembersEnd(c: seq<byte>, q: nat, members: seq<Member>, spec: Parsed<seq<Member>>) {
    spec.Ok? == Sees(c, q, CLOSE_BRACE) && (spec.Ok? ==> spec.value == members && spec.off == q + 1)
  }

  lemma ElementFails(c: seq<byte>, off: nat, left: nat, items: seq<Json>)
    requires off <= |c| && ParseElement(c, off, left).Fail?
    ensures ParseElements(c, off, left, items).Fail?
  {
    assert ParseElements(c, off, left, items) == ElementTurn(c, off, left, items);
  }

  lemma MemberFails(c: seq<byte>, off: nat, left: nat, members: seq<Member>)
    requires off <= |c| && ParseMember(c, off, left).Fail?
    ensures ParseMembers(c, off, left, members).Fail?
  {
    assert ParseMembers(c, off, left, members) == MemberTurn(c, off, left, members);
  }

  /** What follows a value decides whether the loop over the elements goes on. */
  lemma ElementTurnIs(c: seq<byte>, off: nat, left: nat, items: seq<Json>, v: Json, q: nat, spec: Parsed<seq<Json>>,
                      all: seq<Json>)
    requires off <= |c| && spec == ParseElements(c, off, left, items) && all == items + [v]
    requires var p := ParseElement(c, off, left); p.Ok? && p.value == v && q == SkipWhitespace(c, p.off)
    ensures Sees(c, q, COMMA) ==> spec == ParseElements(c, q + 1, left, all)
    ensures !Sees(c, q, COMMA) ==> ElementsEnd(c, q, all, spec)
  {
    assert ParseElements(c, off, left, items) == ElementTurn(c, off, left, items);
  }

  lemma MemberTurnIs(c: seq<byte>, off: nat, left: nat, members: seq<Member>, m: Member, q: nat,
                     spec: Parsed<seq<Member>>, all: seq<Member>)
    requires off <= |c| && spec == ParseMembers(c, off, left, members) && all == members + [m]
    requires var p := ParseMember(c, off, left); p.Ok? && p.value == m && q == SkipWhitespace(c, p.off)
    ensures Sees(c, q, COMMA) ==> spec == ParseMembers(c, q + 1, left, all)
    ensures !Sees(c, q, COMMA) ==> MembersEnd(c, q, all, spec)
  {
    assert ParseMembers(c, off, left, members) == MemberTurn(c, off, left, members);
  }

  /** A node as it is allocated, perhaps with a name already. */
  ghost predicate Unfilled(item: Item)
    reads item
  {
    item.child == null && item.children == [] && !item.data.reference && !item.data.constName
  }

  /** The tree under `item` is a well-formed tree with the contents `v`. */
  ghost predicate Holds(item: Item, u: Shape, v: Value)
    reads item`data, item`child, item`children, u.nodes - {item}
  {
    item in u.nodes && Tree(item, u) && Contents(u) == v
  }

  lemma ItemsGrow(row: Row, n: Item, w: Shape, items: seq<Json>, v: Json)
    requires ContentsAll(row.ts) == ValuesOf(items) && Contents(w) == ValueOf(v, Unnamed)
    ensures ContentsAll(Extended(row, n, w).ts) == ValuesOf(items + [v])
  {
    ContentsAppend(row.ts, w);
    ValuesAppend(items, v);
  }

  lemma MembersGrow(row: Row, n: Item, w: Shape, members: seq<Member>, m: Member)
    requires ContentsAll(row.ts) == MembersOf(members) && Contents(w) == MemberOf(m)
    ensures ContentsAll(Extended(row, n, w).ts) == MembersOf(members + [m])
  {
    ContentsAppend(row.ts, w);
    MembersAppend(members, m);
  }

  /** A new node behind the last one of a row. */
  method NewNode(last: Item?, ghost row: Row) returns (n: Item)
    requires Lined(row) && last == Last(row.roots)
    modifies Just(last)`next
    ensures fresh(n) && Unfilled(n) && n !in row.nodes && n.data.name == Unnamed
    ensures Layout(row.roots, row.ts, row.nodes) && Trees(row.roots, row.ts, row.nodes) && Chain(row.roots + [n])
  {
    n := new Item(Data(NullKind, Unnamed, false, false));
    Link(last, n, row);
  }

  /** Fills in a node that has no children. */
  method Fill(item: Item, kind: Kind) returns (ghost u: Shape)
    requires Unfilled(item)
    modifies item`data
    ensures u.nodes == {item} && Holds(item, u, Value(Data(kind, old(item.data.name), false, false), []))
  {
    item.data := item.data.(kind := kind);
    u := Shape(item.data, {item}, []);
    assert Rooted(item, u);
  }

  /** Fills in a container: the first child points back to the last, and the container to the first. */
  method FillContainer(item: Item, kind: Kind, head: Item?, last: Item?, ghost row: Row) returns (ghost u: Shape)
    requires Unfilled(item) && Lined(row) && item !in row.nodes && head == First(row.roots) && last == Last(row.roots)
    modifies item`data, item`child, item`children, Just(head)`prev
    ensures u.nodes == row.nodes + {item}
    ensures Holds(item, u, Value(Data(kind, old(item.data.name), false, false), ContentsAll(row.ts)))
  {
    item.data := item.data.(kind := kind);
    item.child := head;
    u := Close(item, last, row);
  }

  class Parser {
    const content: seq<byte>
    var offset: nat
    var depth: nat

    predicate Valid()
      reads this
    {
      offset <= |content| && depth <= NESTING_LIMIT
    }

    function Left(): nat
      requires Valid()
      reads this
    {
      NESTING_LIMIT - depth
    }

    constructor (text: seq<byte>)
      ensures Valid() && content == text && offset == 0 && depth == 0
    {
      content := text;
      offset := 0;
      depth := 0;
    }

    method SkipSpaces()
      requires Valid()
      modifies this
      ensures Valid() && depth == old(depth) && offset == SkipWhitespace(content, old(offset))
    {
      if offset >= |content| { return; }
      while offset < |content| && content[offset] <= 32
        invariant old(offset) <= offset <= |content| && depth == old(depth)
        invariant SkipBlank(content, offset) == SkipBlank(content, old(offset))
      {
        offset := offset + 1;
      }
      if offset == |content| { offset := offset - 1; }
    }

    method Number() returns (r: Option<Decimal>)
      requires Valid()
      modifies this
      ensures Valid() && depth == old(depth)
      ensures var p := ParseNumber(content, old(offset));
              r.Some? == p.Ok? && (r.Some? ==> JsonText.Number(r.value) == p.value && offset == p.off)
    {
      var text := NumberCharacters();
      var number := Strtod(text);
      if number.Fail? { return None; }
      offset := offset + number.off;
      return Some(number.value);
    }

    /** Copies number characters into a 64-byte buffer and terminates it. */
    method NumberCharacters() returns (text: seq<byte>)
      requires Valid()
      ensures text == NumberText(content, offset)
    {
      var buffer := new byte[64];
      var i := 0;
      while i < 63 && offset + i < |content| && IsNumberByte(content[offset + i])
        invariant i <= 63 && offset + i <= |content|
        invariant buffer[..i] == content[offset..offset + i]
        invariant NumberRun(content, offset, 63) == i + NumberRun(content, offset + i, 63 - i)
      {
        assert content[offset..offset + i + 1] == content[offset..offset + i] + [content[offset + i]];
        buffer[i] := content[offset + i];
        i := i + 1;
      }
      buffer[i] := NUL;
      return buffer[..i];
    }

    /** The first pass finds the closing quote and sizes the output; the second fills it. */
    method Literal() returns (r: Option<seq<byte>>)
      requires Valid() && offset < |content|
      modifies this
      ensures Valid() && depth == old(depth)
      ensures var p := ParseString(content, old(offset));
              r.Some? == p.Ok? && (r.Some? ==> r.value == p.value && offset == p.off)
    {
      var start := offset + 1;
      var end, skipped := start, 0;
      if content[offset] != QUOTE {
        offset := start;
        return None;
      }
      while end < |content| && content[end] != QUOTE
        invariant start <= end <= |content|
        invariant ClosingQuote(content, end) == ClosingQuote(content, start)
        invariant skipped + Skipped(content, end) == Skipped(content, start)
      {
        if content[end] == BACKSLASH {
          if end + 1 >= |content| {
            offset := start;
            return None;
          }
          skipped := skipped + 1;
          end := end + 1;
        }
        end := end + 1;
      }
      if end >= |content| {
        offset := start;
        return None;
      }
      QuoteVisited(content, start, start);
      SkippedIsWeight(content, start, start);
      var stop;
      r, stop := SecondPass(content, start, end, end - offset - skipped + 1);
      offset := if r.Some? then end + 1 else stop;
    }

    method Value(item: Item) returns (ok: bool, ghost u: Shape)
      requires Valid() && Unfilled(item)
      modifies this, item`data, item`child, item`children
      ensures Valid()
      ensures var p := ParseValue(content, old(offset), old(Left()));
              && ok == p.Ok?
              && (ok ==> offset == p.off && depth == old(depth) && fresh(u.nodes - {item}))
              && (ok ==> Holds(item, u, ValueOf(p.value, old(item.data.name))))
      decreases |content| - offset, 3
    {
      assert ParseValue(content, offset, Left()) == ParseToken(content, offset, Left());
      u := Shape(item.data, {item}, []);
      if CanRead(content, offset, NULL_TEXT) {
        offset := offset + 4;
        u := Fill(item, NullKind);
        return true, u;
      }
      if CanRead(content, offset, FALSE_TEXT) {
        offset := offset + 5;
        u := Fill(item, FalseKind);
        return true, u;
      }
      if CanRead(content, offset, TRUE_TEXT) {
        offset := offset + 4;
        u := Fill(item, TrueKind);
        return true, u;
      }
      if Sees(content, offset, QUOTE) {
        var s := Literal();
        if s.None? { return false, u; }
        u := Fill(item, StringKind(s.value));
        return true, u;
      }
      if offset < |content| && (content[offset] == MINUS || IsDigit(content[offset])) {
        var d := Number();
        if d.None? { return false, u; }
        u := Fill(item, NumberKind(d.value));
        return true, u;
      }
      if Sees(content, offset, OPEN_BRACKET) {
        ok, u := List(item);
        return;
      }
      if Sees(content, offset, OPEN_BRACE) {
        ok, u := Dictionary(item);
        return;
      }
      return false, u;
    }

    method List(item: Item) returns (ok: bool, ghost u: Shape)
      requires Valid() && Unfilled(item) && Sees(content, offset, OPEN_BRACKET)
      modifies this, item`data, item`child, item`children
      ensures Valid()
      ensures var p := ParseArray(content, old(offset), old(Left()));
              && ok == p.Ok?
              && (ok ==> offset == p.off && depth == old(depth) && fresh(u.nodes - {item}))
              && (ok ==> Holds(item, u, ValueOf(p.value, old(item.data.name))))
      decreases |content| - offset, 2
    {
      u := Shape(item.data, {item}, []);
      if depth >= NESTING_LIMIT { return false, u; }
      ghost var p := ParseArray(content, offset, Left());
      depth := depth + 1;
      var head, last;
      ghost var row;
      ok, head, last, row := ListBody();
      if !ok { return; }
      depth := depth - 1;
      ghost var v := ValueOf(p.value, item.data.name);
      ValueOfArray(p.value.items, item.data.name);
      u := FillContainer(item, ArrayKind, head, last, row);
      assert Contents(u) == v;
      offset := offset + 1;
    }

    /** The elements, if there are any, up to the closing bracket. */
    method ListBody() returns (ok: bool, head: Item?, last: Item?, ghost row: Row)
      requires Valid() && depth > 0 && Sees(content, offset, OPEN_BRACKET)
      modifies this
      ensures Valid()
      ensures var p := ParseArray(content, old(offset), old(Left()) + 1);
              && ok == p.Ok?
              && (ok ==> offset + 1 == p.off && depth == old(depth))
              && (ok ==> p.value.Array? && ContentsAll(row.ts) == ValuesOf(p.value.items))
      ensures ok ==> Lined(row) && fresh(row.nodes) && head == First(row.roots) && last == Last(row.roots)
      decreases |content| - offset, 1
    {
      offset := offset + 1;
      SkipSpaces();
      head, last, row, ok := null, null, NO_NODES, true;
      if Sees(content, offset, CLOSE_BRACKET) { return; }
      if offset >= |content| {
        offset := offset - 1;
        return false, head, last, row;
      }
      ok, head, last, row := Elements();
    }

    /** The loop over the elements; it ends on the closing bracket. */
    method Elements() returns (ok: bool, head: Item?, last: Item?, ghost row: Row)
      requires Valid() && 0 < offset < |content|
      modifies this
      ensures Valid()
      ensures var p := ParseElements(content, old(offset), old(Left()), []);
              && ok == p.Ok?
              && (ok ==> offset + 1 == p.off && depth == old(depth) && ContentsAll(row.ts) == ValuesOf(p.value))
      ensures ok ==> Lined(row) && fresh(row.nodes) && head == First(row.roots) && last == Last(row.roots)
      decreases |content| - offset, 7
    {
      ghost var spec := ParseElements(content, offset, Left(), []);
      offset := offset - 1;
      head, last, row, ok := null, null, NO_NODES, true;
      ghost var items := [];
      var more := true;
      while more
        invariant old(offset) <= offset + 1 && Valid() && depth == old(depth)
        invariant more ==> offset < |content| && spec == ParseElements(content, offset + 1, Left(), items)
        invariant !more ==> ElementsEnd(content, offset, items, spec)
        invariant ContentsAll(row.ts) == ValuesOf(items)
        invariant Lined(row) && fresh(row.nodes) && head == First(row.roots) && last == Last(row.roots)
        decreases |content| - offset, more
      {
        ok, more, last, row, items := NextElement(last, row, items, spec);
        if !ok { return; }
        if head == null { head := last; }
      }
      ok := Sees(content, offset, CLOSE_BRACKET);
    }

    /** One turn: a new node behind the last, its value, then a comma to go on or anything else to stop. */
    method NextElement(last: Item?, ghost row: Row, ghost items: seq<Json>, ghost spec: Parsed<seq<Json>>)
        returns (ok: bool, more: bool, n: Item, ghost longer: Row, ghost all: seq<Json>)
      requires Valid() && offset < |content| && spec == ParseElements(content, offset + 1, Left(), items)
      requires Lined(row) && last == Last(row.roots) && ContentsAll(row.ts) == ValuesOf(items)
      modifies this, Just(last)`next
      ensures Valid() && (more ==> ok)
      ensures !ok ==> spec.Fail?
      ensures ok ==> offset > old(offset) && depth == old(depth)
      ensures more ==> offset < |content| && spec == ParseElements(content, offset + 1, Left(), all)
      ensures ok && !more ==> ElementsEnd(content, offset, all, spec)
      ensures ok ==> longer.roots == row.roots + [n] && Lined(longer) && fresh(longer.nodes - row.nodes)
      ensures ok ==> ContentsAll(longer.ts) == ValuesOf(all)
      decreases |content| - offset - 1, 6
    {
      ghost var turn := offset + 1;
      ghost var p := ParseElement(content, turn, Left());
      ghost var w;
      ok, n, w := NewElement(last, row);
      if !ok {
        ElementFails(content, turn, old(Left()), items);
        return false, false, n, row, items;
      }
      all := items + [p.value];
      ItemsGrow(row, n, w, items, p.value);
      ElementTurnIs(content, turn, Left(), items, p.value, offset, spec, all);
      return true, Sees(content, offset, COMMA), n, Extended(row, n, w), all;
    }

    /** A new node behind the last one, filled with the next value. */
    method NewElement(last: Item?, ghost row: Row) returns (ok: bool, n: Item, ghost w: Shape)
      requires Valid() && offset < |content| && Lined(row) && last == Last(row.roots)
      modifies this, Just(last)`next
      ensures Valid()
      ensures var p := ParseElement(content, old(offset) + 1, old(Left()));
              && ok == p.Ok?
              && (ok ==> offset == SkipWhitespace(content, p.off) && depth == old(depth))
              && (ok ==> Contents(w) == ValueOf(p.value, Unnamed))
      ensures ok ==> Lined(Extended(row, n, w)) && fresh(w.nodes)
      decreases |content| - offset - 1, 5
    {
      n := NewNode(last, row);
      offset := offset + 1;
      ok, w := Element(n);
      if ok { RowGrows(row, n, w); }
    }

    /** A value with the whitespace around it. */
    method Element(item: Item) returns (ok: bool, ghost u: Shape)
      requires Valid() && Unfilled(item)
      modifies this, item`data, item`child, item`children
      ensures Valid()
      ensures var p := ParseElement(content, old(offset), old(Left()));
              && ok == p.Ok?
              && (ok ==> offset == SkipWhitespace(content, p.off) && depth == old(depth) && fresh(u.nodes - {item}))
              && (ok ==> Holds(item, u, ValueOf(p.value, old(item.data.name))))
      decreases |content| - offset, 4
    {
      SkipSpaces();
      ok, u := Value(item);
      if ok { SkipSpaces(); }
    }

    method Dictionary(item: Item) returns (ok: bool, ghost u: Shape)
      requires Valid() && Unfilled(item) && Sees(content, offset, OPEN_BRACE)
      modifies this, item`data, item`child, item`children
      ensures Valid()
      ensures var p := ParseObject(content, old(offset), old(Left()));
              && ok == p.Ok?
              && (ok ==> offset == p.off && depth == old(depth) && fresh(u.nodes - {item}))
              && (ok ==> Holds(item, u, ValueOf(p.value, old(item.data.name))))
      decreases |content| - offset, 2
    {
      u := Shape(item.data, {item}, []);
      if depth >= NESTING_LIMIT { return false, u; }
      ghost var p := ParseObject(content, offset, Left());
      depth := depth + 1;
      var head, last;
      ghost var row;
      ok, head, last, row := DictionaryBody();
      if !ok { return; }
      depth := depth - 1;
      ghost var v := ValueOf(p.value, item.data.name);
      ValueOfObject(p.value.members, item.data.name);
      u := FillContainer(item, ObjectKind, head, last, row);
      assert Contents(u) == v;
      offset := offset + 1;
    }

    /** The members, if there are any, up to the closing brace. */
    method DictionaryBody() returns (ok: bool, head: Item?, last: Item?, ghost row: Row)
      requires Valid() && depth > 0 && Sees(content, offset, OPEN_BRACE)
      modifies this
      ensures Valid()
      ensures var p := ParseObject(content, old(offset), old(Left()) + 1);
              && ok == p.Ok?
              && (ok ==> offset + 1 == p.off && depth == old(depth))
              && (ok ==> p.value.Object? && ContentsAll(row.ts) == MembersOf(p.value.members))
      ensures ok ==> Lined(row) && fresh(row.nodes) && head == First(row.roots) && last == Last(row.roots)
      decreases |content| - offset, 1
    {
      offset := offset + 1;
      SkipSpaces();
      head, last, row, ok := null, null, NO_NODES, true;
      if Sees(content, offset, CLOSE_BRACE) { return; }
      if offset >= |content| {
        offset := offset - 1;
        return false, head, last, row;
      }
      ok, head, last, row := Members();
    }

    method Members() returns (ok: bool, head: Item?, last: Item?, ghost row: Row)
      requires Valid() && 0 < offset < |content|
      modifies this
      ensures Valid()
      ensures var p := ParseMembers(content, old(offset), old(Left()), []);
              && ok == p.Ok?
              && (ok ==> offset + 1 == p.off && depth == old(depth) && ContentsAll(row.ts) == MembersOf(p.value))
      ensures ok ==> Lined(row) && fresh(row.nodes) && head == First(row.roots) && last == Last(row.roots)
      decreases |content| - offset, 7
    {
      ghost var spec := ParseMembers(content, offset, Left(), []);
      offset := offset - 1;
      head, last, row, ok := null, null, NO_NODES, true;
      ghost var members := [];
      var more := true;
      while more
        invariant old(offset) <= offset + 1 && Valid() && depth == old(depth)
        invariant more ==> offset < |content| && spec == ParseMembers(content, offset + 1, Left(), members)
        invariant !more ==> MembersEnd(content, offset, members, spec)
        invariant ContentsAll(row.ts) == MembersOf(members)
        invariant Lined(row) && fresh(row.nodes) && head == First(row.roots) && last == Last(row.roots)
        decreases |content| - offset, more
      {
        ok, more, last, row, members := NextPair(last, row, members, spec);
        if !ok { return; }
        if head == null { head := last; }
      }
      ok := Sees(content, offset, CLOSE_BRACE);
    }

    method NextPair(last: Item?, ghost row: Row, ghost members: seq<Member>, ghost spec: Parsed<seq<Member>>)
        returns (ok: bool, more: bool, n: Item, ghost longer: Row, ghost all: seq<Member>)
      requires Valid() && offset < |content| && spec == ParseMembers(content, offset + 1, Left(), members)
      requires Lined(row) && last == Last(row.roots) && ContentsAll(row.ts) == MembersOf(members)
      modifies this, Just(last)`next
      ensures Valid() && (more ==> ok)
      ensures !ok ==> spec.Fail?
      ensures ok ==> offset > old(offset) && depth == old(depth)
      ensures more ==> offset < |content| && spec == ParseMembers(content, offset + 1, Left(), all)
      ensures ok && !more ==> MembersEnd(content, offset, all, spec)
      ensures ok ==> longer.roots == row.roots + [n] && Lined(longer) && fresh(longer.nodes - row.nodes)
      ensures ok ==> ContentsAll(longer.ts) == MembersOf(all)
      decreases |content| - offset - 1, 6
    {
      ghost var turn := offset + 1;
      ghost var p := ParseMember(content, turn, Left());
      ghost var w;
      ok, n, w := NewPair(last, row);
      if !ok {
        MemberFails(content, turn, old(Left()), members);
        return false, false, n, row, members;
      }
      all := members + [p.value];
      MembersGrow(row, n, w, members, p.value);
      MemberTurnIs(content, turn, Left(), members, p.value, offset, spec, all);
      return true, Sees(content, offset, COMMA), n, Extended(row, n, w), all;
    }

    /** A new node behind the last one, filled with the next member, unless nothing follows. */
    method NewPair(last: Item?, ghost row: Row) returns (ok: bool, n: Item, ghost w: Shape)
      requires Valid() && offset < |content| && Lined(row) && last == Last(row.roots)
      modifies this, Just(last)`next
      ensures Valid()
      ensures var p := ParseMember(content, old(offset) + 1, old(Left()));
              && ok == p.Ok?
              && (ok ==> offset == SkipWhitespace(content, p.off) && depth == old(depth))
              && (ok ==> Contents(w) == MemberOf(p.value))
      ensures ok ==> Lined(Extended(row, n, w)) && fresh(w.nodes)
      decreases |content| - offset - 1, 5
    {
      n := NewNode(last, row);
      w := Shape(n.data, {n}, []);
      if offset + 1 >= |content| { return false, n, w; }
      offset := offset + 1;
      ok, w := Pair(n);
      if ok { RowGrows(row, n, w); }
    }

    /** A name, which the node keeps, a colon and a value. */
    method Pair(item: Item) returns (ok: bool, ghost u: Shape)
      requires Valid() && Unfilled(item) && offset < |content|
      modifies this, item`data, item`child, item`children
      ensures Valid()
      ensures var p := ParseMember(content, old(offset), old(Left()));
              && ok == p.Ok?
              && (ok ==> offset == SkipWhitespace(content, p.off) && depth == old(depth) && fresh(u.nodes - {item}))
              && (ok ==> Holds(item, u, MemberOf(p.value)))
      decreases |content| - offset, 4
    {
      assert ParseMember(content, offset, Left()) == ParsePair(content, offset, Left());
      u := Shape(item.data, {item}, []);
      SkipSpaces();
      var key := Literal();
      if key.None? { return false, u; }
      item.data := item.data.(name := Named(key.value));
      SkipSpaces();
      if !Sees(content, offset, COLON) { return false, u; }
      offset := offset + 1;
      ok, u := Element(item);
    }

    method Document(terminated: bool) returns (r: Item?, ghost u: Shape)
      requires Valid() && offset == 0 && depth == 0
      modifies this
      ensures Valid()
      ensures var p := Parse(content, terminated, NESTING_LIMIT);
              && (r != null) == p.Ok?
              && (r != null ==> offset == p.off && depth == 0 && fresh(u.nodes))
              && (r != null ==> Holds(r, u, ValueOf(p.value, Unnamed)))
    {
      var item := new Item(Data(NullKind, Unnamed, false, false));
      u := Shape(item.data, {item}, []);
      if |content| == 0 { return null, u; }
      if HasBom(content) { offset := 3; }
      SkipSpaces();
      var ok;
      ok, u := Value(item);
      if !ok { return null, u; }
      if terminated {
        SkipSpaces();
        if !Sees(content, offset, NUL) { return null, u; }
      }
      return item, u;
    }
  }
}
