/**
 The parser reads every text of a value by the grammar of RFC 8259 and stops right after it, unless the value nests
 deeper than the limit, in which case it refuses it. What the printers write is such a text.
 */
module JsonRoundTrip {
  import opened Bytes
  import opened JsonText
  import opened JsonParse
  import opened JsonTokens

  /** The bytes of `t` stand in `c` from `off` on. */
  ghost predicate At(c: seq<byte>, off: nat, t: seq<byte>)
    ensures At(c, off, t) ==> off + |t| <= |c|
    decreases |t|, 1
  {
    AtFirst(c, off, t)
  }

  ghost predicate AtFirst(c: seq<byte>, off: nat, t: seq<byte>)
    ensures AtFirst(c, off, t) ==> off + |t| <= |c|
    decreases |t|, 0
  {
    if t == [] then off <= |c| else Sees(c, off, t[0]) && At(c, off + 1, t[1..])
  }

  lemma {:induction false} AtIsSlice(c: seq<byte>, off: nat, t: seq<byte>)
    ensures At(c, off, t) <==> off + |t| <= |c| && c[off..off + |t|] == t
    decreases t
  {
    assert At(c, off, t) == AtFirst(c, off, t);
    if t != [] {
      AtIsSlice(c, off + 1, t[1..]);
      if off + |t| <= |c| {
        assert c[off..off + |t|] == [c[off]] + c[off + 1..off + |t|];
        assert t == [t[0]] + t[1..];
      }
    }
  }

  lemma Split(c: seq<byte>, off: nat, a: seq<byte>, b: seq<byte>)
    requires At(c, off, a + b)
    ensures At(c, off, a) && At(c, off + |a|, b)
  {
    AtIsSlice(c, off, a + b);
    ReadSplit(c, off, a, b);
    AtIsSlice(c, off, a);
    AtIsSlice(c, off + |a|, b);
  }

  lemma ByteAt(c: seq<byte>, off: nat, t: seq<byte>, i: nat)
    requires At(c, off, t) && i < |t|
    ensures c[off + i] == t[i]
  {
    AtIsSlice(c, off, t);
    ReadByte(c, off, t, i);
  }

  // ---- whitespace ----

  ghost predicate Blank(c: seq<byte>, i: nat, j: nat) {
    i <= j < |c| && c[j] > 32 && forall k :: i <= k < j ==> c[k] <= 32
  }

  lemma {:induction false} SkipsTo(c: seq<byte>, i: nat, j: nat)
    requires Blank(c, i, j)
    ensures SkipBlank(c, i) == j && SkipWhitespace(c, i) == j
    decreases j - i
  {
    if i < j { SkipsTo(c, i + 1, j); }
  }

  lemma {:induction false} SkipTwice(c: seq<byte>, i: nat)
    requires i <= |c|
    ensures SkipBlank(c, SkipBlank(c, i)) == SkipBlank(c, i)
    decreases |c| - i
  {
    if i < |c| && c[i] <= 32 { SkipTwice(c, i + 1); }
  }

  lemma {:induction false} TabsAreBlank(n: nat, k: nat)
    requires k < n
    ensures Tabs(n)[k] == TAB
  {
    if k > 0 { TabsAreBlank(n - 1, k - 1); }
  }

  lemma IndentIsBlank(c: seq<byte>, off: nat, depth: nat, fmt: bool)
    requires At(c, off, Indent(depth, fmt))
    ensures forall k :: off <= k < off + |Indent(depth, fmt)| ==> c[k] <= 32
  {
    var t := Indent(depth, fmt);
    forall k | off <= k < off + |t| ensures c[k] <= 32 {
      ByteAt(c, off, t, k - off);
      TabsAreBlank(depth, k - off);
    }
  }

  // ---- values ----

  lemma Literals(c: seq<byte>, off: nat)
    requires off < |c|
    ensures CanRead(c, off, NULL_TEXT) ==> c[off] == 0x6E
    ensures CanRead(c, off, FALSE_TEXT) ==> c[off] == 0x66
    ensures CanRead(c, off, TRUE_TEXT) ==> c[off] == 0x74
  {
    if CanRead(c, off, NULL_TEXT) { assert c[off..off + 4][0] == c[off]; }
    if CanRead(c, off, FALSE_TEXT) { assert c[off..off + 5][0] == c[off]; }
    if CanRead(c, off, TRUE_TEXT) { assert c[off..off + 4][0] == c[off]; }
  }

  predicate IsLeaf(v: Json) {
    !v.Array? && !v.Object?
  }

  // ---- texts of a value, with any whitespace between the tokens ----

  /**
   `c[i..j]` is a text of `v`: strings and numbers in any spelling, and any whitespace between the tokens. Unless it
   is to be strict, strings and numbers need only be what the parser takes for such.
   */
  ghost predicate Spells(v: Json, c: seq<byte>, i: nat, j: nat, strict: bool)
    decreases v, 1
  {
    SpellsNode(v, c, i, j, strict)
  }

  ghost predicate SpellsNode(v: Json, c: seq<byte>, i: nat, j: nat, strict: bool)
    decreases v, 0
  {
    match v
    case Array(items) =>
      Sees(c, i, OPEN_BRACKET) && var p := SkipBlank(c, i + 1);
      if items == [] then Sees(c, p, CLOSE_BRACKET) && j == p + 1 else SpellsItems(items, c, p, j, strict)
    case Object(members) =>
      Sees(c, i, OPEN_BRACE) && var p := SkipBlank(c, i + 1);
      if members == [] then Sees(c, p, CLOSE_BRACE) && j == p + 1 else SpellsMembers(members, c, p, j, strict)
    case Null => CanRead(c, i, NULL_TEXT) && j == i + 4
    case False => CanRead(c, i, FALSE_TEXT) && j == i + 5
    case True => CanRead(c, i, TRUE_TEXT) && j == i + 4
    case Number(d) => if strict then SpellsNumber(d, c, i, j) else ReadsNumber(d, c, i, j)
    case String(s) => StringAt(s, c, i, j, strict)
  }

  ghost predicate StringAt(s: seq<byte>, c: seq<byte>, i: nat, j: nat, strict: bool) {
    if strict then SpellsString(s, c, i, j) else Sees(c, i, QUOTE) && ReadsString(s, c, i, j)
  }

  lemma StringAtReads(s: seq<byte>, c: seq<byte>, i: nat, j: nat, strict: bool)
    requires StringAt(s, c, i, j, strict)
    ensures Sees(c, i, QUOTE) && ReadsString(s, c, i, j)
  {
    if strict { StringBack(s, c, i, j); }
  }

  /** The elements from the first byte of the first one up to and including the closing bracket. */
  ghost predicate SpellsItems(items: seq<Json>, c: seq<byte>, i: nat, j: nat, strict: bool)
    requires items != []
    decreases items, 1
  {
    exists e: nat :: Spells(items[0], c, i, e, strict) && AfterItem(items[1..], c, e, j, strict)
  }

  ghost predicate AfterItem(items: seq<Json>, c: seq<byte>, e: nat, j: nat, strict: bool)
    decreases items, 2
  {
    && e <= |c|
    && var q := SkipBlank(c, e);
    if items == [] then Sees(c, q, CLOSE_BRACKET) && j == q + 1
    else Sees(c, q, COMMA) && SpellsItems(items, c, SkipBlank(c, q + 1), j, strict)
  }

  ghost predicate SpellsMembers(members: seq<Member>, c: seq<byte>, i: nat, j: nat, strict: bool)
    requires members != []
    decreases members, 1
  {
    exists e: nat :: SpellsMember(members[0], c, i, e, strict) && AfterMember(members[1..], c, e, j, strict)
  }

  ghost predicate AfterMember(members: seq<Member>, c: seq<byte>, e: nat, j: nat, strict: bool)
    decreases members, 2
  {
    && e <= |c|
    && var q := SkipBlank(c, e);
    if members == [] then Sees(c, q, CLOSE_BRACE) && j == q + 1
    else Sees(c, q, COMMA) && SpellsMembers(members, c, SkipBlank(c, q + 1), j, strict)
  }

  ghost predicate SpellsMember(m: Member, c: seq<byte>, i: nat, j: nat, strict: bool)
    decreases m, 1
  {
    SpellsPair(m, c, i, j, strict)
  }

  ghost predicate SpellsPair(m: Member, c: seq<byte>, i: nat, j: nat, strict: bool)
    decreases m, 0
  {
    exists e: nat :: StringAt(m.key, c, i, e, strict) && AfterKey(m, c, e, j, strict)
  }

  ghost predicate AfterKey(m: Member, c: seq<byte>, e: nat, j: nat, strict: bool)
    decreases m, 0, 0
  {
    && e <= |c|
    && var k := SkipBlank(c, e);
    && Sees(c, k, COLON) && Spells(m.value, c, SkipBlank(c, k + 1), j, strict)
  }

  // ---- the parser reads every such text ----

  lemma LeafBack(v: Json, c: seq<byte>, i: nat, j: nat, left: nat, strict: bool)
    requires IsLeaf(v) && SpellsNode(v, c, i, j, strict) && (strict ==> Ends(c, j))
    ensures var r := ParseValue(c, i, left); r.Ok? && r.value == v && r.off == j
  {
    LeafFirst(v, c, i, j, strict);
    if v.Number? {
      if strict { NumeralBack(v.value, c, i, j); }
      ParsesNumber(v.value, c, i, j, left);
    } else if v.String? {
      StringAtReads(v.text, c, i, j, strict);
      ParsesString(v.text, c, i, j, left);
    } else {
      Literals(c, i);
      assert ParseValue(c, i, left) == ParseToken(c, i, left);
    }
  }

  lemma ParsesNumber(d: Decimal, c: seq<byte>, i: nat, j: nat, left: nat)
    requires ReadsNumber(d, c, i, j)
    ensures var r := ParseValue(c, i, left); r.Ok? && r.value == Number(d) && r.off == j
  {
    Literals(c, i);
    assert ParseValue(c, i, left) == ParseToken(c, i, left);
  }

  lemma ParsesString(s: seq<byte>, c: seq<byte>, i: nat, j: nat, left: nat)
    requires Sees(c, i, QUOTE) && ReadsString(s, c, i, j)
    ensures var r := ParseValue(c, i, left); r.Ok? && r.value == String(s) && r.off == j
  {
    Literals(c, i);
    assert ParseValue(c, i, left) == ParseToken(c, i, left);
  }

  /** A leaf's first byte tells its kind. */
  lemma LeafFirst(v: Json, c: seq<byte>, i: nat, j: nat, strict: bool)
    requires IsLeaf(v) && SpellsNode(v, c, i, j, strict)
    ensures i < |c|
    ensures match v
            case Null => c[i] == 0x6E
            case False => c[i] == 0x66
            case True => c[i] == 0x74
            case Number(_) => c[i] == MINUS || IsDigit(c[i])
            case _ => c[i] == QUOTE
  {
    match v
    case Null => ReadByte(c, i, NULL_TEXT, 0);
    case False => ReadByte(c, i, FALSE_TEXT, 0);
    case True => ReadByte(c, i, TRUE_TEXT, 0);
    case Number(d) => if strict { NumberFirst(d, c, i, j); }
    case String(_) =>
  }

  lemma {:induction false} ValueBack(v: Json, c: seq<byte>, i: nat, j: nat, left: nat, strict: bool)
    requires Spells(v, c, i, j, strict) && (strict ==> Ends(c, j))
    ensures i < |c| && c[i] > 32
    ensures var r := ParseValue(c, i, left);
            && r.Ok? == (Depth(v) <= left) && (r.Ok? ==> r.value == v && r.off == j)
    decreases v, 0
  {
    assert SpellsNode(v, c, i, j, strict);
    FirstByte(v, c, i, j, strict);
    if v.Array? {
      ArrayBack(v.items, c, i, j, left, strict);
      ParsesArray(c, i, left);
    } else if v.Object? {
      ObjectBack(v.members, c, i, j, left, strict);
      ParsesObject(c, i, left);
    } else {
      LeafBack(v, c, i, j, left, strict);
    }
  }

  lemma FirstByte(v: Json, c: seq<byte>, i: nat, j: nat, strict: bool)
    requires Spells(v, c, i, j, strict)
    ensures i < |c| && 32 < c[i] < 0x80 && c[i] != CLOSE_BRACKET
  {
    assert SpellsNode(v, c, i, j, strict);
    if IsLeaf(v) { LeafFirst(v, c, i, j, strict); }
  }

  lemma ParsesArray(c: seq<byte>, off: nat, left: nat)
    requires Sees(c, off, OPEN_BRACKET)
    ensures ParseValue(c, off, left) == ParseArray(c, off, left)
  {
    Literals(c, off);
    assert ParseValue(c, off, left) == ParseToken(c, off, left);
  }

  lemma ParsesObject(c: seq<byte>, off: nat, left: nat)
    requires Sees(c, off, OPEN_BRACE)
    ensures ParseValue(c, off, left) == ParseObject(c, off, left)
  {
    Literals(c, off);
    assert ParseValue(c, off, left) == ParseToken(c, off, left);
  }

  lemma {:induction false} ArrayBack(items: seq<Json>, c: seq<byte>, i: nat, j: nat, left: nat, strict: bool)
    requires SpellsNode(Array(items), c, i, j, strict)
    ensures Sees(c, i, OPEN_BRACKET)
    ensures var r := ParseArray(c, i, left);
            && r.Ok? == (1 + DepthAll(items) <= left)
            && (r.Ok? ==> r.value == Array(items) && r.off == j)
    decreases items, 2
  {
    if items != [] && left > 0 {
      SkipTwice(c, i + 1);
      ItemsBack(items, c, SkipBlank(c, i + 1), j, left - 1, [], strict);
      assert [] + items == items;
      ArrayOf(c, i, left);
    }
  }

  lemma ArrayOf(c: seq<byte>, off: nat, left: nat)
    requires Sees(c, off, OPEN_BRACKET) && left > 0
    requires var p := SkipBlank(c, off + 1); p < |c| && c[p] != CLOSE_BRACKET
    ensures var r, s := ParseArray(c, off, left), ParseElements(c, SkipBlank(c, off + 1), left - 1, []);
            r.Ok? == s.Ok? && (r.Ok? ==> r.value == Array(s.value) && r.off == s.off)
  {
  }

  /** What parsing the elements from `off` on comes to: `all`, ending at `j`, if they nest within the limit. */
  ghost predicate ElementsGive(c: seq<byte>, off: nat, left: nat, done: seq<Json>, fits: bool, all: seq<Json>,
                               j: nat) {
    && off <= |c|
    && var r := ParseElements(c, off, left, done);
    && r.Ok? == fits && (fits ==> r.value == all && r.off == j)
  }

  /** The parser reads `v` at the next token after `off` and stops at `e`. */
  ghost predicate ReadsValue(c: seq<byte>, off: nat, left: nat, v: Json, e: nat) {
    && off <= |c| && SkipBlank(c, off) < |c|
    && var r := ParseValue(c, SkipBlank(c, off), left);
    && r.Ok? && r.value == v && r.off == e
  }

  lemma ElementStep(c: seq<byte>, off: nat, e: nat, left: nat, done: seq<Json>, v: Json, fits: bool, all: seq<Json>,
                    j: nat)
    requires ReadsValue(c, off, left, v, e) && Sees(c, SkipBlank(c, e), COMMA)
    requires ElementsGive(c, SkipBlank(c, e) + 1, left, done + [v], fits, all, j)
    ensures ElementsGive(c, off, left, done, fits, all, j)
  {
    assert ParseElement(c, off, left) == ParseValue(c, SkipWhitespace(c, off), left);
    assert ParseElements(c, off, left, done) == ElementTurn(c, off, left, done);
  }

  lemma ElementLast(c: seq<byte>, off: nat, e: nat, left: nat, done: seq<Json>, v: Json)
    requires ReadsValue(c, off, left, v, e) && Sees(c, SkipBlank(c, e), CLOSE_BRACKET)
    ensures ElementsGive(c, off, left, done, true, done + [v], SkipBlank(c, e) + 1)
  {
    assert ParseElement(c, off, left) == ParseValue(c, SkipWhitespace(c, off), left);
    assert ParseElements(c, off, left, done) == ElementTurn(c, off, left, done);
  }

  lemma ElementFails(c: seq<byte>, off: nat, left: nat, done: seq<Json>, all: seq<Json>, j: nat)
    requires off <= |c| && SkipBlank(c, off) < |c| && ParseValue(c, SkipBlank(c, off), left).Fail?
    ensures ElementsGive(c, off, left, done, false, all, j)
  {
    assert ParseElement(c, off, left) == ParseValue(c, SkipWhitespace(c, off), left);
    assert ParseElements(c, off, left, done) == ElementTurn(c, off, left, done);
  }

  lemma {:induction false} ItemsBack(items: seq<Json>, c: seq<byte>, off: nat, j: nat, left: nat, done: seq<Json>,
                                     strict: bool)
    requires items != []
    requires off <= |c| && SpellsItems(items, c, SkipBlank(c, off), j, strict)
    ensures SkipBlank(c, off) < |c| && c[SkipBlank(c, off)] != CLOSE_BRACKET
    ensures ElementsGive(c, off, left, done, DepthAll(items) <= left, done + items, j)
    decreases items, 1
  {
    var v, rest, i := items[0], items[1..], SkipBlank(c, off);
    var e := UnpackItems(items, c, i, j, strict);
    FirstByte(v, c, i, e, strict);
    ValueBack(v, c, i, e, left, strict);
    if Depth(v) > left {
      ElementFails(c, off, left, done, done + items, j);
    } else if rest == [] {
      ElementLast(c, off, e, left, done, v);
      assert items == [v];
    } else {
      ItemsBack(rest, c, SkipBlank(c, e) + 1, j, left, done + [v], strict);
      assert done + [v] + rest == done + items;
      ElementStep(c, off, e, left, done, v, DepthAll(rest) <= left, done + items, j);
    }
  }

  /** Where the first element ends, and what follows it. */
  lemma UnpackItems(items: seq<Json>, c: seq<byte>, i: nat, j: nat, strict: bool) returns (e: nat)
    requires items != [] && SpellsItems(items, c, i, j, strict)
    ensures Spells(items[0], c, i, e, strict) && Ends(c, e)
    ensures |items| == 1 ==> Sees(c, SkipBlank(c, e), CLOSE_BRACKET) && j == SkipBlank(c, e) + 1
    ensures |items| > 1 ==>
              && Sees(c, SkipBlank(c, e), COMMA)
              && SpellsItems(items[1..], c, SkipBlank(c, SkipBlank(c, e) + 1), j, strict)
  {
    e :| Spells(items[0], c, i, e, strict) && AfterItem(items[1..], c, e, j, strict);
  }

  lemma {:induction false} ObjectBack(members: seq<Member>, c: seq<byte>, i: nat, j: nat, left: nat, strict: bool)
    requires SpellsNode(Object(members), c, i, j, strict)
    ensures Sees(c, i, OPEN_BRACE)
    ensures var r := ParseObject(c, i, left);
            && r.Ok? == (1 + DepthMembers(members) <= left)
            && (r.Ok? ==> r.value == Object(members) && r.off == j)
    decreases members, 2
  {
    if members != [] && left > 0 {
      SkipTwice(c, i + 1);
      MembersBack(members, c, SkipBlank(c, i + 1), j, left - 1, [], strict);
      assert [] + members == members;
      ObjectOf(c, i, left);
    }
  }

  lemma ObjectOf(c: seq<byte>, off: nat, left: nat)
    requires Sees(c, off, OPEN_BRACE) && left > 0
    requires var p := SkipBlank(c, off + 1); p < |c| && c[p] != CLOSE_BRACE
    ensures var r, s := ParseObject(c, off, left), ParseMembers(c, SkipBlank(c, off + 1), left - 1, []);
            r.Ok? == s.Ok? && (r.Ok? ==> r.value == Object(s.value) && r.off == s.off)
  {
  }

  lemma {:induction false} MemberBack(m: Member, c: seq<byte>, off: nat, j: nat, left: nat, strict: bool)
    requires off <= |c|
    requires SpellsMember(m, c, SkipBlank(c, off), j, strict) && (strict ==> Ends(c, j))
    ensures Sees(c, SkipBlank(c, off), QUOTE)
    ensures var r := ParseMember(c, off, left);
            && r.Ok? == (Depth(m.value) <= left) && (r.Ok? ==> r.value == m && r.off == j)
    decreases m, 0
  {
    var e, w := UnpackMember(m, c, SkipBlank(c, off), j, strict);
    StringAtReads(m.key, c, SkipBlank(c, off), e, strict);
    ValueBack(m.value, c, w, j, left, strict);
    MemberStep(c, off, e, left, m.key);
  }

  lemma UnpackMember(m: Member, c: seq<byte>, i: nat, j: nat, strict: bool) returns (e: nat, w: nat)
    requires SpellsMember(m, c, i, j, strict)
    ensures StringAt(m.key, c, i, e, strict) && e <= |c|
    ensures Sees(c, SkipBlank(c, e), COLON) && w == SkipBlank(c, SkipBlank(c, e) + 1)
    ensures Spells(m.value, c, w, j, strict)
  {
    assert SpellsPair(m, c, i, j, strict);
    e :| StringAt(m.key, c, i, e, strict) && AfterKey(m, c, e, j, strict);
    w := SkipBlank(c, SkipBlank(c, e) + 1);
  }

  lemma MemberStep(c: seq<byte>, off: nat, e: nat, left: nat, key: seq<byte>)
    requires off <= |c| && SkipBlank(c, off) < |c|
    requires var r := ParseString(c, SkipBlank(c, off)); r.Ok? && r.value == key && r.off == e
    requires Sees(c, SkipBlank(c, e), COLON) && SkipBlank(c, SkipBlank(c, e) + 1) < |c|
    ensures var r, s := ParseMember(c, off, left), ParseValue(c, SkipBlank(c, SkipBlank(c, e) + 1), left);
            r.Ok? == s.Ok? && (r.Ok? ==> r.value == Member(key, s.value) && r.off == s.off)
  {
    assert ParseMember(c, off, left) == ParsePair(c, off, left);
    assert ParseElement(c, SkipBlank(c, e) + 1, left) == ParseValue(c, SkipBlank(c, SkipBlank(c, e) + 1), left);
  }

  ghost predicate MembersGive(c: seq<byte>, off: nat, left: nat, done: seq<Member>, fits: bool, all: seq<Member>,
                              j: nat) {
    && off <= |c|
    && var r := ParseMembers(c, off, left, done);
    && r.Ok? == fits && (fits ==> r.value == all && r.off == j)
  }

  ghost predicate ReadsMember(c: seq<byte>, off: nat, left: nat, m: Member, e: nat) {
    off <= |c| && var r := ParseMember(c, off, left); r.Ok? && r.value == m && r.off == e
  }

  lemma MembersStep(c: seq<byte>, off: nat, e: nat, left: nat, done: seq<Member>, m: Member, fits: bool,
                    all: seq<Member>, j: nat)
    requires ReadsMember(c, off, left, m, e) && Sees(c, SkipBlank(c, e), COMMA)
    requires MembersGive(c, SkipBlank(c, e) + 1, left, done + [m], fits, all, j)
    ensures MembersGive(c, off, left, done, fits, all, j)
  {
    assert ParseMembers(c, off, left, done) == MemberTurn(c, off, left, done);
  }

  lemma MembersLast(c: seq<byte>, off: nat, e: nat, left: nat, done: seq<Member>, m: Member)
    requires ReadsMember(c, off, left, m, e) && Sees(c, SkipBlank(c, e), CLOSE_BRACE)
    ensures MembersGive(c, off, left, done, true, done + [m], SkipBlank(c, e) + 1)
  {
    assert ParseMembers(c, off, left, done) == MemberTurn(c, off, left, done);
  }

  lemma MembersFail(c: seq<byte>, off: nat, left: nat, done: seq<Member>, all: seq<Member>, j: nat)
    requires off <= |c| && ParseMember(c, off, left).Fail?
    ensures MembersGive(c, off, left, done, false, all, j)
  {
    assert ParseMembers(c, off, left, done) == MemberTurn(c, off, left, done);
  }

  lemma {:induction false} MembersBack(members: seq<Member>, c: seq<byte>, off: nat, j: nat, left: nat,
                                       done: seq<Member>, strict: bool)
    requires members != []
    requires off <= |c| && SpellsMembers(members, c, SkipBlank(c, off), j, strict)
    ensures Sees(c, SkipBlank(c, off), QUOTE)
    ensures MembersGive(c, off, left, done, DepthMembers(members) <= left, done + members, j)
    decreases members, 1
  {
    var m, rest, i := members[0], members[1..], SkipBlank(c, off);
    var e := UnpackMembers(members, c, i, j, strict);
    MemberBack(m, c, off, e, left, strict);
    if Depth(m.value) > left {
      MembersFail(c, off, left, done, done + members, j);
    } else if rest == [] {
      MembersLast(c, off, e, left, done, m);
      assert members == [m];
    } else {
      MembersBack(rest, c, SkipBlank(c, e) + 1, j, left, done + [m], strict);
      assert done + [m] + rest == done + members;
      MembersStep(c, off, e, left, done, m, DepthMembers(rest) <= left, done + members, j);
    }
  }

  lemma UnpackMembers(members: seq<Member>, c: seq<byte>, i: nat, j: nat, strict: bool) returns (e: nat)
    requires members != [] && SpellsMembers(members, c, i, j, strict)
    ensures SpellsMember(members[0], c, i, e, strict) && Ends(c, e)
    ensures |members| == 1 ==> Sees(c, SkipBlank(c, e), CLOSE_BRACE) && j == SkipBlank(c, e) + 1
    ensures |members| > 1 ==>
              && Sees(c, SkipBlank(c, e), COMMA)
              && SpellsMembers(members[1..], c, SkipBlank(c, SkipBlank(c, e) + 1), j, strict)
  {
    e :| SpellsMember(members[0], c, i, e, strict) && AfterMember(members[1..], c, e, j, strict);
  }

  // ---- what the printers write is such a text ----

  lemma {:induction false} RenderSpells(v: Json, c: seq<byte>, i: nat, j: nat, depth: nat, fmt: bool)
    requires Printable(v) && At(c, i, Render(v, depth, fmt)) && j == i + |Render(v, depth, fmt)|
    ensures Spells(v, c, i, j, true)
    decreases v, 0
  {
    assert Render(v, depth, fmt) == RenderNode(v, depth, fmt);
    if v.Array? {
      ArraySpells(v.items, c, i, j, depth, fmt);
    } else if v.Object? {
      ObjectSpells(v.members, c, i, j, depth, fmt);
    } else {
      AtIsSlice(c, i, RenderNode(v, depth, fmt));
      LeafSpells(v, c, i, j, depth, fmt);
    }
  }

  lemma LeafSpells(v: Json, c: seq<byte>, i: nat, j: nat, depth: nat, fmt: bool)
    requires Printable(v) && IsLeaf(v)
    requires CanRead(c, i, RenderNode(v, depth, fmt)) && j == i + |RenderNode(v, depth, fmt)|
    ensures SpellsNode(v, c, i, j, true)
  {
    match v
    case Number(d) => IntSpells(d.mantissa, c, i, j);
    case String(s) => StringSpells(s, c, i, j);
    case _ =>
  }

  lemma {:induction false} ArraySpells(items: seq<Json>, c: seq<byte>, i: nat, j: nat, depth: nat, fmt: bool)
    requires AllPrintable(items) && At(c, i, RenderNode(Array(items), depth, fmt))
    requires j == i + |RenderNode(Array(items), depth, fmt)|
    ensures SpellsNode(Array(items), c, i, j, true)
    decreases items, 2
  {
    var body := RenderItems(items, depth + 1, fmt);
    assert RenderNode(Array(items), depth, fmt) == [OPEN_BRACKET] + body + [CLOSE_BRACKET];
    Brackets(c, i, OPEN_BRACKET, body, CLOSE_BRACKET);
    if items != [] { ItemsSpell(items, c, i + 1, j, depth + 1, fmt); }
    SkipsTo(c, i + 1, i + 1);
  }

  lemma Brackets(c: seq<byte>, off: nat, open: byte, body: seq<byte>, close: byte)
    requires At(c, off, [open] + body + [close])
    ensures Sees(c, off, open) && At(c, off + 1, body) && Sees(c, off + 1 + |body|, close)
  {
    Split(c, off, [open] + body, [close]);
    Split(c, off, [open], body);
    ByteAt(c, off, [open], 0);
    ByteAt(c, off + 1 + |body|, [close], 0);
  }

  lemma {:induction false} ItemsSpell(items: seq<Json>, c: seq<byte>, i: nat, j: nat, depth: nat, fmt: bool)
    requires AllPrintable(items) && items != [] && At(c, i, RenderItems(items, depth, fmt))
    requires j == i + |RenderItems(items, depth, fmt)| + 1 && Sees(c, j - 1, CLOSE_BRACKET)
    ensures SpellsItems(items, c, i, j, true)
    ensures i < |c| && c[i] > 32
    decreases items, 1
  {
    var v, rest := items[0], items[1..];
    var t := Render(v, depth, fmt);
    var e := i + |t|;
    if rest != [] { SeparatedParts(c, i, t, fmt, RenderItems(rest, depth, fmt)); }
    RenderSpells(v, c, i, e, depth, fmt);
    FirstByte(v, c, i, e, true);
    var n := e + |Separator(fmt)|;
    if rest != [] { ItemsSpell(rest, c, n, j, depth, fmt); }
    PackItems(items, c, i, e, n, j);
  }

  lemma PackItems(items: seq<Json>, c: seq<byte>, i: nat, e: nat, n: nat, j: nat)
    requires items != [] && Spells(items[0], c, i, e, true)
    requires |items| == 1 ==> Sees(c, e, CLOSE_BRACKET) && j == e + 1
    requires |items| > 1 ==> Sees(c, e, COMMA) && Blank(c, e + 1, n) && SpellsItems(items[1..], c, n, j, true)
    ensures SpellsItems(items, c, i, j, true)
  {
    SkipsTo(c, e, e);
    if |items| > 1 { SkipsTo(c, e + 1, n); }
    assert AfterItem(items[1..], c, e, j, true);
  }

  lemma SeparatedParts(c: seq<byte>, start: nat, t: seq<byte>, fmt: bool, rest: seq<byte>)
    requires At(c, start, t + Separator(fmt) + rest)
    ensures At(c, start, t) && Sees(c, start + |t|, COMMA)
    ensures forall k :: start + |t| + 1 <= k < start + |t| + |Separator(fmt)| ==> c[k] <= 32
    ensures At(c, start + |t| + |Separator(fmt)|, rest)
  {
    var sep := Separator(fmt);
    Split(c, start, t + sep, rest);
    Split(c, start, t, sep);
    ByteAt(c, start + |t|, sep, 0);
    if fmt { ByteAt(c, start + |t|, sep, 1); }
  }

  lemma {:induction false} ObjectSpells(members: seq<Member>, c: seq<byte>, i: nat, j: nat, depth: nat, fmt: bool)
    requires AllMembersPrintable(members) && At(c, i, RenderNode(Object(members), depth, fmt))
    requires j == i + |RenderNode(Object(members), depth, fmt)|
    ensures SpellsNode(Object(members), c, i, j, true)
    decreases members, 2
  {
    var body := RenderMembers(members, depth + 1, fmt);
    assert RenderNode(Object(members), depth, fmt) == ObjectStart(fmt) + body + Indent(depth, fmt) + [CLOSE_BRACE];
    var start, brace := Braces(c, i, body, depth, fmt);
    if members == [] {
      SkipsTo(c, i + 1, brace);
    } else {
      var q := start + |Indent(depth + 1, fmt)|;
      MembersSpell(members, c, start, q, brace, j, depth + 1, fmt);
      PackObject(members, c, i, q, j);
    }
  }

  lemma PackObject(members: seq<Member>, c: seq<byte>, i: nat, q: nat, j: nat)
    requires members != [] && Sees(c, i, OPEN_BRACE) && Blank(c, i + 1, q) && SpellsMembers(members, c, q, j, true)
    ensures SpellsNode(Object(members), c, i, j, true)
  {
    SkipsTo(c, i + 1, q);
  }

  lemma Braces(c: seq<byte>, off: nat, body: seq<byte>, depth: nat, fmt: bool) returns (start: nat, brace: nat)
    requires At(c, off, ObjectStart(fmt) + body + Indent(depth, fmt) + [CLOSE_BRACE])
    ensures Sees(c, off, OPEN_BRACE) && off < start && At(c, start, body)
    ensures forall k :: off + 1 <= k < start ==> c[k] <= 32
    ensures Blank(c, start + |body|, brace) && Sees(c, brace, CLOSE_BRACE)
    ensures brace + 1 == off + |ObjectStart(fmt) + body + Indent(depth, fmt) + [CLOSE_BRACE]|
  {
    var open, pad := ObjectStart(fmt), Indent(depth, fmt);
    start := off + |open|;
    brace := start + |body| + |pad|;
    Split(c, off, open + body + pad, [CLOSE_BRACE]);
    Split(c, off, open + body, pad);
    Split(c, off, open, body);
    ByteAt(c, off, open, 0);
    if fmt { ByteAt(c, off, open, 1); }
    ByteAt(c, brace, [CLOSE_BRACE], 0);
    IndentIsBlank(c, start + |body|, depth, fmt);
  }

  /** The members' text starts at `i`; the first key's quote comes right after the indentation. */
  lemma {:induction false} MembersSpell(members: seq<Member>, c: seq<byte>, i: nat, q: nat, brace: nat, j: nat,
                                        depth: nat, fmt: bool)
    requires AllMembersPrintable(members) && members != [] && At(c, i, RenderMembers(members, depth, fmt))
    requires Blank(c, i + |RenderMembers(members, depth, fmt)|, brace) && Sees(c, brace, CLOSE_BRACE)
    requires q == i + |Indent(depth, fmt)| && j == brace + 1
    ensures SpellsMembers(members, c, q, j, true) && Blank(c, i, q)
    decreases members, 1
  {
    var m, rest := members[0], members[1..];
    var e, n := MembersParts(members, c, i, depth, fmt);
    MemberSpells(m, c, i, q, e, depth, fmt);
    if rest == [] {
      PackLastMember(members, c, q, e, brace, j);
    } else {
      var p := n + |Indent(depth, fmt)|;
      MembersSpell(rest, c, n, p, brace, j, depth, fmt);
      PackMembers(members, c, q, e, p, j);
    }
  }

  lemma MembersParts(members: seq<Member>, c: seq<byte>, i: nat, depth: nat, fmt: bool) returns (e: nat, n: nat)
    requires AllMembersPrintable(members) && members != [] && At(c, i, RenderMembers(members, depth, fmt))
    ensures At(c, i, RenderMember(members[0], depth, fmt)) && e == i + |RenderMember(members[0], depth, fmt)|
    ensures At(c, n, RenderMembers(members[1..], depth, fmt))
    ensures n + |RenderMembers(members[1..], depth, fmt)| == i + |RenderMembers(members, depth, fmt)| && e <= n
    ensures |members| == 1 ==>
              n == i + |RenderMembers(members, depth, fmt)| && forall k :: e <= k < n ==> c[k] <= 32
    ensures |members| > 1 ==> Sees(c, e, COMMA) && e < n && forall k :: e < k < n ==> c[k] <= 32
  {
    var t, tail := RenderMember(members[0], depth, fmt), RenderMembers(members[1..], depth, fmt);
    e := i + |t|;
    n := MemberParts(c, i, t, fmt, |members| == 1, tail);
  }

  lemma PackMembers(members: seq<Member>, c: seq<byte>, i: nat, e: nat, n: nat, j: nat)
    requires |members| > 1 && SpellsMember(members[0], c, i, e, true)
    requires Sees(c, e, COMMA) && Blank(c, e + 1, n) && SpellsMembers(members[1..], c, n, j, true)
    ensures SpellsMembers(members, c, i, j, true)
  {
    SkipsTo(c, e, e);
    SkipsTo(c, e + 1, n);
    assert AfterMember(members[1..], c, e, j, true);
  }

  lemma PackLastMember(members: seq<Member>, c: seq<byte>, i: nat, e: nat, brace: nat, j: nat)
    requires |members| == 1 && SpellsMember(members[0], c, i, e, true)
    requires Blank(c, e, brace) && Sees(c, brace, CLOSE_BRACE) && j == brace + 1
    ensures SpellsMembers(members, c, i, j, true)
  {
    SkipsTo(c, e, brace);
    assert AfterMember(members[1..], c, e, j, true);
  }

  /** A member's text `t`, what ends it, and the members after it, which start at `n`. */
  lemma MemberParts(c: seq<byte>, i: nat, t: seq<byte>, fmt: bool, last: bool, rest: seq<byte>) returns (n: nat)
    requires At(c, i, t + MemberEnd(last, fmt) + rest)
    ensures At(c, i, t) && At(c, n, rest) && i + |t| <= n && n + |rest| == i + |t + MemberEnd(last, fmt) + rest|
    ensures last ==> forall k :: i + |t| <= k < n ==> c[k] <= 32
    ensures !last ==> Sees(c, i + |t|, COMMA) && i + |t| < n && forall k :: i + |t| < k < n ==> c[k] <= 32
  {
    var end := MemberEnd(last, fmt);
    n := i + |t| + |end|;
    Split(c, i, t + end, rest);
    Split(c, i, t, end);
    if |end| > 0 { ByteAt(c, i + |t|, end, 0); }
    if |end| > 1 { ByteAt(c, i + |t|, end, 1); }
  }

  lemma {:induction false} MemberSpells(m: Member, c: seq<byte>, i: nat, q: nat, j: nat, depth: nat, fmt: bool)
    requires NUL !in m.key && Printable(m.value) && At(c, i, RenderMember(m, depth, fmt))
    requires q == i + |Indent(depth, fmt)| && j == i + |RenderMember(m, depth, fmt)|
    ensures SpellsMember(m, c, q, j, true) && Blank(c, i, q)
    decreases m, 0
  {
    var pad, key, value := Indent(depth, fmt), StringText(m.key), Render(m.value, depth, fmt);
    var w := PairParts(c, i, pad, key, fmt, value);
    IndentIsBlank(c, i, depth, fmt);
    KeySpells(m.key, c, q, q + |key|);
    RenderSpells(m.value, c, w, j, depth, fmt);
    FirstByte(m.value, c, w, j, true);
    PackMember(m, c, q, q + |key|, w, j);
  }

  lemma KeySpells(key: seq<byte>, c: seq<byte>, i: nat, j: nat)
    requires NUL !in key && At(c, i, StringText(key)) && j == i + |StringText(key)|
    ensures SpellsString(key, c, i, j) && Sees(c, i, QUOTE)
  {
    AtIsSlice(c, i, StringText(key));
    StringSpells(key, c, i, j);
  }

  lemma PairParts(c: seq<byte>, i: nat, pad: seq<byte>, key: seq<byte>, fmt: bool, value: seq<byte>) returns (w: nat)
    requires At(c, i, pad + key + KeyEnd(fmt) + value)
    ensures At(c, i, pad) && At(c, i + |pad|, key) && At(c, w, value)
    ensures w + |value| == i + |pad + key + KeyEnd(fmt) + value| && i + |pad| + |key| < w
    ensures Sees(c, i + |pad| + |key|, COLON) && forall k :: i + |pad| + |key| < k < w ==> c[k] <= 32
  {
    var colon, k := KeyEnd(fmt), i + |pad| + |key|;
    w := k + |colon|;
    Split(c, i, pad + key + colon, value);
    Split(c, i, pad + key, colon);
    Split(c, i, pad, key);
    ByteAt(c, k, colon, 0);
    if fmt { ByteAt(c, k, colon, 1); }
  }

  lemma PackMember(m: Member, c: seq<byte>, i: nat, k: nat, w: nat, j: nat)
    requires SpellsString(m.key, c, i, k)
    requires Sees(c, k, COLON) && Blank(c, k + 1, w) && Spells(m.value, c, w, j, true)
    ensures SpellsMember(m, c, i, j, true)
  {
    SkipsTo(c, k, k);
    SkipsTo(c, k + 1, w);
    assert AfterKey(m, c, k, j, true);
    assert SpellsPair(m, c, i, j, true);
  }

  // ---- whole documents ----

  lemma NoBom(c: seq<byte>)
    requires c != [] && c[0] < 0x80
    ensures !HasBom(c)
  {
    if |c| > 4 { assert c[..3][0] == c[0]; }
  }

  /** Where the first token of a buffer stands: a byte order mark and whitespace may come before it. */
  function Start(c: seq<byte>): nat {
    SkipBlank(c, if HasBom(c) then 3 else 0)
  }

  /**
   A buffer that holds a text of `v` parses to `v` exactly if `v` nests within the limit and, when a terminator is
   required, only whitespace and a NUL follow.
   */
  lemma DocumentBack(v: Json, c: seq<byte>, j: nat, terminated: bool, limit: nat, strict: bool)
    requires Spells(v, c, Start(c), j, strict) && (strict ==> Ends(c, j))
    ensures j <= |c|
    ensures var r, q := Parse(c, terminated, limit), SkipWhitespace(c, j);
            && r.Ok? == (Depth(v) <= limit && (terminated ==> Sees(c, q, NUL)))
            && (r.Ok? ==> r.value == v && r.off == if terminated then q else j)
  {
    FirstByte(v, c, Start(c), j, strict);
    ValueBack(v, c, Start(c), j, Depth(v), strict);
    ValueBack(v, c, Start(c), j, limit, strict);
  }

  /**
   Printing, formatted or not, and parsing again: the same tree, and the parser stops right after the text,
   exactly when the tree nests within the limit; a deeper one is refused.
   */
  lemma RoundTrip(v: Json, fmt: bool, terminated: bool, limit: nat)
    requires Printable(v)
    ensures var t := Render(v, 0, fmt);
            var r := Parse(t + [NUL], terminated, limit);
            r.Ok? == (Depth(v) <= limit) && (r.Ok? ==> r.value == v && r.off == |t|)
    ensures var t := Render(v, 0, fmt);
            var r := Parse(t, false, limit);
            r.Ok? == (Depth(v) <= limit) && (r.Ok? ==> r.value == v && r.off == |t|)
  {
    var t := Render(v, 0, fmt);
    var c := t + [NUL];
    assert c[0..0 + |t|] == t && t[0..0 + |t|] == t;
    FrontBack(v, t, fmt, false, limit);
    FrontBack(v, c, fmt, terminated, limit);
    assert SkipBlank(c, |t| + 1) == |t| + 1;
    assert SkipBlank(c, |t|) == |t| + 1;
  }

  /** A buffer that starts with a printed text. */
  lemma FrontBack(v: Json, c: seq<byte>, fmt: bool, terminated: bool, limit: nat)
    requires Printable(v) && CanRead(c, 0, Render(v, 0, fmt)) && Ends(c, |Render(v, 0, fmt)|)
    ensures var j := |Render(v, 0, fmt)|;
            var r, q := Parse(c, terminated, limit), SkipWhitespace(c, j);
            && r.Ok? == (Depth(v) <= limit && (terminated ==> Sees(c, q, NUL)))
            && (r.Ok? ==> r.value == v && r.off == if terminated then q else j)
  {
    var t := Render(v, 0, fmt);
    AtIsSlice(c, 0, t);
    RenderSpells(v, c, 0, |t|, 0, fmt);
    StartsHere(v, c, |t|, true);
    DocumentBack(v, c, |t|, terminated, limit, true);
  }

  lemma StartsHere(v: Json, c: seq<byte>, j: nat, strict: bool)
    requires Spells(v, c, 0, j, strict)
    ensures Start(c) == 0
  {
    FirstByte(v, c, 0, j, strict);
    NoBom(c);
    SkipsTo(c, 0, 0);
  }

  /** Two trees that print alike are the same tree, so nothing the printers drop distinguishes them. */
  lemma RenderInjective(v: Json, w: Json, fmt: bool)
    requires Printable(v) && Printable(w)
    requires Render(v, 0, fmt) == Render(w, 0, fmt)
    ensures v == w
  {
    var limit := Depth(v) + Depth(w);
    RoundTrip(v, fmt, true, limit);
    RoundTrip(w, fmt, true, limit);
  }
}
