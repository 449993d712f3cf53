/**
 Printing, parsing and comparing together: the tree the parser builds from any text of a value has that value's
 contents and no others, callers see the same of two such trees exactly if the values agree, and comparing the trees
 compares the values.
 */
module JsonDocuments {
  import opened Bytes
  import opened JsonText
  import opened JsonParse
  import opened JsonTokens
  import opened JsonRoundTrip
  import opened JsonList
  import opened JsonTree
  import opened JsonDuplicate
  import JsonCompare
  import JsonComparer
  import JsonParser
  import JsonPrinter

  // ---- a value and the contents of its tree determine each other ----

  lemma {:induction false} ContentsDetermine(v: Json, w: Json, name: Name)
    requires ValueOf(v, name) == ValueOf(w, name)
    ensures v == w
    decreases v, 0
  {
    if v.Array? {
      ItemsDetermine(v.items, w.items);
    } else if v.Object? {
      MembersDetermine(v.members, w.members);
    }
  }

  lemma {:induction false} ItemsDetermine(items: seq<Json>, others: seq<Json>)
    requires ValuesOf(items) == ValuesOf(others)
    ensures items == others
    decreases items, 1
  {
    if items != [] {
      assert ValuesOf(items)[0] == ValuesOf(others)[0] && ValuesOf(items)[1..] == ValuesOf(others)[1..];
      ContentsDetermine(items[0], others[0], Unnamed);
      ItemsDetermine(items[1..], others[1..]);
      assert items == [items[0]] + items[1..] && others == [others[0]] + others[1..];
    }
  }

  lemma {:induction false} MemberDetermines(m: Member, other: Member)
    requires MemberOf(m) == MemberOf(other)
    ensures m == other
    decreases m, 0
  {
    assert MemberOf(m).data.name == Named(m.key) && MemberOf(other).data.name == Named(other.key);
    ContentsDetermine(m.value, other.value, Named(m.key));
  }

  lemma {:induction false} MembersDetermine(members: seq<Member>, others: seq<Member>)
    requires MembersOf(members) == MembersOf(others)
    ensures members == others
    decreases members, 1
  {
    if members != [] {
      assert MembersOf(members)[0] == MembersOf(others)[0] && MembersOf(members)[1..] == MembersOf(others)[1..];
      MemberDetermines(members[0], others[0]);
      MembersDetermine(members[1..], others[1..]);
      assert members == [members[0]] + members[1..] && others == [others[0]] + others[1..];
    }
  }

  // ---- what callers see of a tree ----

  datatype SeenKind = Atom(kind: Kind) | Double(x: real)

  /** A tree as callers see it: strings end at the first NUL, and numbers are rounded by `round`. */
  datatype Seen = Seen(kind: SeenKind, name: Name, children: seq<Seen>)

  function SeenKindOf(k: Kind, round: real -> real): SeenKind {
    match k case NumberKind(d) => Double(round(JsonCompare.RealOf(d))) case _ => Atom(CopiedKind(k))
  }

  function SeenOf(v: Value, round: real -> real): Seen
    decreases v
  {
    Seen(SeenKindOf(v.data.kind, round), CopiedName(v.data.name), SeenAll(v.children, round))
  }

  function SeenAll(vs: seq<Value>, round: real -> real): (r: seq<Seen>)
    ensures |r| == |vs|
    decreases vs
  {
    if vs == [] then [] else [SeenOf(vs[0], round)] + SeenAll(vs[1..], round)
  }

  /** Two values agree: numbers once rounded, strings and names up to the first NUL, members in the same order. */
  predicate Agree(v: Json, w: Json, round: real -> real)
    decreases v
  {
    match v
    case Number(d) => w.Number? && round(JsonCompare.RealOf(d)) == round(JsonCompare.RealOf(w.value))
    case String(s) => w.String? && CString(s) == CString(w.text)
    case Array(items) => w.Array? && AllAgree(items, w.items, round)
    case Object(members) => w.Object? && MembersAgree(members, w.members, round)
    case _ => v == w
  }

  predicate AllAgree(s: seq<Json>, t: seq<Json>, round: real -> real)
    decreases s
  {
    |s| == |t| && (s == [] || (Agree(s[0], t[0], round) && AllAgree(s[1..], t[1..], round)))
  }

  predicate MembersAgree(s: seq<Member>, t: seq<Member>, round: real -> real)
    decreases s
  {
    |s| == |t| && (s == [] || (MemberAgrees(s[0], t[0], round) && MembersAgree(s[1..], t[1..], round)))
  }

  predicate MemberAgrees(m: Member, n: Member, round: real -> real)
    decreases m
  {
    CString(m.key) == CString(n.key) && Agree(m.value, n.value, round)
  }

  lemma SeenNode(v: Json, name: Name, round: real -> real)
    ensures SeenOf(ValueOf(v, name), round) ==
            Seen(SeenKindOf(KindOf(v), round), CopiedName(name), SeenAll(ChildrenOf(v), round))
  {
  }

  /** Callers see the same of the trees of two values exactly if the values agree. */
  lemma {:induction false} SeenIff(v: Json, w: Json, name: Name, other: Name, round: real -> real)
    ensures SeenOf(ValueOf(v, name), round) == SeenOf(ValueOf(w, other), round) <==>
            CopiedName(name) == CopiedName(other) && Agree(v, w, round)
    decreases v, 0
  {
    SeenNode(v, name, round);
    SeenNode(w, other, round);
    if v.Array? && w.Array? {
      ItemsSeenIff(v.items, w.items, round);
    } else if v.Object? && w.Object? {
      MembersSeenIff(v.members, w.members, round);
    }
  }

  lemma {:induction false} ItemsSeenIff(s: seq<Json>, t: seq<Json>, round: real -> real)
    ensures SeenAll(ValuesOf(s), round) == SeenAll(ValuesOf(t), round) <==> AllAgree(s, t, round)
    decreases s, 1
  {
    if s != [] && t != [] {
      SeenIff(s[0], t[0], Unnamed, Unnamed, round);
      ItemsSeenIff(s[1..], t[1..], round);
      SeenFirst(ValuesOf(s), ValuesOf(t), round);
      assert ValuesOf(s)[1..] == ValuesOf(s[1..]) && ValuesOf(t)[1..] == ValuesOf(t[1..]);
    }
  }

  lemma {:induction false} MembersSeenIff(s: seq<Member>, t: seq<Member>, round: real -> real)
    ensures SeenAll(MembersOf(s), round) == SeenAll(MembersOf(t), round) <==> MembersAgree(s, t, round)
    decreases s, 1
  {
    if s != [] && t != [] {
      MemberSeenIff(s[0], t[0], round);
      MembersSeenIff(s[1..], t[1..], round);
      SeenFirst(MembersOf(s), MembersOf(t), round);
      assert MembersOf(s)[1..] == MembersOf(s[1..]) && MembersOf(t)[1..] == MembersOf(t[1..]);
    }
  }

  lemma {:induction false} MemberSeenIff(m: Member, n: Member, round: real -> real)
    ensures SeenOf(MemberOf(m), round) == SeenOf(MemberOf(n), round) <==> MemberAgrees(m, n, round)
    decreases m, 0
  {
    SeenIff(m.value, n.value, Named(m.key), Named(n.key), round);
    assert MemberOf(m) == ValueOf(m.value, Named(m.key)) && MemberOf(n) == ValueOf(n.value, Named(n.key));
  }

  lemma SeenFirst(s: seq<Value>, t: seq<Value>, round: real -> real)
    requires s != [] && t != []
    ensures SeenAll(s, round) == SeenAll(t, round) <==>
            SeenOf(s[0], round) == SeenOf(t[0], round) && SeenAll(s[1..], round) == SeenAll(t[1..], round)
  {
    var x, y := SeenAll(s, round), SeenAll(t, round);
    assert x[0] == SeenOf(s[0], round) && x[1..] == SeenAll(s[1..], round);
    assert y[0] == SeenOf(t[0], round) && y[1..] == SeenAll(t[1..], round);
    assert x == [x[0]] + x[1..] && y == [y[0]] + y[1..];
  }

  /** A zero at the end of the digits, with the exponent adjusted, is the same number: 1 and 1.0, say. */
  lemma TrailingZero(m: int, e: int, round: real -> real)
    ensures Agree(Number(Decimal(m, e)), Number(Decimal(m * 10, e - 1)), round)
  {
    SameReal(m, m * 10, e);
  }

  lemma SameReal(m: int, n: int, e: int)
    requires n == m * 10
    ensures JsonCompare.RealOf(Decimal(m, e)) == JsonCompare.RealOf(Decimal(n, e - 1))
  {
    var x := m as real;
    assert n as real == 10.0 * x;
    if e >= 1 {
      Tenfold(x, JsonCompare.PowerOfTen(e - 1), JsonCompare.PowerOfTen(e));
    } else {
      JsonCompare.PowerOfTenPositive(-e);
      assert JsonCompare.PowerOfTen(1 - e) == 10.0 * JsonCompare.PowerOfTen(-e);
      TenfoldQuotient(x, JsonCompare.PowerOfTen(-e));
    }
  }

  lemma Tenfold(x: real, p: real, q: real)
    requires q == 10.0 * p
    ensures x * q == 10.0 * x * p
  {
  }

  lemma TenfoldQuotient(x: real, p: real)
    requires p > 0.0
    ensures 10.0 * x / (10.0 * p) == x / p
  {
    var q := x / p;
    assert q * p == x;
    assert q * (10.0 * p) == 10.0 * x;
  }

  /** Strings that differ only behind a NUL. */
  lemma BehindNul(s: seq<byte>, a: seq<byte>, b: seq<byte>, round: real -> real)
    requires NUL !in s
    ensures Agree(String(s + [NUL] + a), String(s + [NUL] + b), round)
  {
    JsonCompare.CutAtNul(s, a);
    JsonCompare.CutAtNul(s, b);
  }

  /** The parser builds such a string from the literal "a\u0000b". */
  lemma NulLiteral()
    ensures ParseString([QUOTE, 0x61, BACKSLASH, LETTER_U, ZERO, ZERO, ZERO, ZERO, 0x62, QUOTE], 0) ==
            Ok([0x61, NUL, 0x62], 10)
  {
    var c: seq<byte> := [QUOTE, 0x61, BACKSLASH, LETTER_U, ZERO, ZERO, ZERO, ZERO, 0x62, QUOTE];
    assert ClosingQuote(c, 9) == Ok((), 9);
    assert ClosingQuote(c, 7) == ClosingQuote(c, 8) == ClosingQuote(c, 9);
    assert ClosingQuote(c, 5) == ClosingQuote(c, 6) == ClosingQuote(c, 7);
    assert ClosingQuote(c, 2) == ClosingQuote(c, 4) == ClosingQuote(c, 5);
    assert Hex4(c, 4) == 0;
    assert Unit(c, 2, 9) == Ok([NUL], 6);
    assert Unescape(c, 9, 9, [0x61, NUL, 0x62]) == Ok([0x61, NUL, 0x62], 9);
    assert [0x61, NUL] + [0x62] == [0x61, NUL, 0x62];
    assert Unescape(c, 8, 9, [0x61, NUL]) == Ok([0x61, NUL, 0x62], 9);
    assert [0x61] + [NUL] == [0x61, NUL];
    assert Unescape(c, 2, 9, [0x61]) == Ok([0x61, NUL, 0x62], 9);
    assert [] + [0x61] == [0x61];
  }

  // ---- documents ----

  /** The contents of the tree the parser builds from a buffer. */
  function TreeOf(c: seq<byte>, limit: nat): (r: Option<Value>) {
    match Parse(c, false, limit)
    case Fail => None
    case Ok(v, _) => Some(ValueOf(v, Unnamed))
  }

  /** `c` is a text of `v`, perhaps with something after it, that nests within the limit. */
  ghost predicate IsText(c: seq<byte>, v: Json, limit: nat) {
    Depth(v) <= limit && exists j: nat :: Spells(v, c, Start(c), j, true) && Ends(c, j)
  }

  lemma TextParses(c: seq<byte>, v: Json, limit: nat)
    requires IsText(c, v, limit)
    ensures TreeOf(c, limit) == Some(ValueOf(v, Unnamed))
  {
    var j: nat :| Spells(v, c, Start(c), j, true) && Ends(c, j);
    DocumentBack(v, c, j, false, limit, true);
  }

  /**
   Whatever their spelling and however numbers are rounded, callers see the same of the trees parsed from two texts
   exactly if the values of the texts agree.
   */
  lemma TextsParseAlike(c: seq<byte>, v: Json, d: seq<byte>, w: Json, limit: nat, round: real -> real)
    requires IsText(c, v, limit) && IsText(d, w, limit)
    ensures TreeOf(c, limit).Some? && TreeOf(d, limit).Some?
    ensures SeenOf(TreeOf(c, limit).value, round) == SeenOf(TreeOf(d, limit).value, round) <==> Agree(v, w, round)
  {
    TextParses(c, v, limit);
    TextParses(d, w, limit);
    SeenIff(v, w, Unnamed, Unnamed, round);
  }

  /** Comparing the trees parsed from two texts decides whether their values mean the same. */
  lemma TextsCompare(c: seq<byte>, v: Json, d: seq<byte>, w: Json, limit: nat, sensitive: bool)
    requires IsText(c, v, limit) && IsText(d, w, limit)
    requires JsonCompare.Plain(ValueOf(v, Unnamed)) && JsonCompare.Plain(ValueOf(w, Unnamed))
    ensures TreeOf(c, limit).Some? && TreeOf(d, limit).Some?
    ensures var a, b := ValueOf(v, Unnamed), ValueOf(w, Unnamed);
            JsonCompare.Compare(TreeOf(c, limit).value, TreeOf(d, limit).value, sensitive) <==>
            && JsonCompare.Consistent(a, sensitive) && JsonCompare.Consistent(b, sensitive)
            && JsonCompare.CanonOf(a, sensitive) == JsonCompare.CanonOf(b, sensitive)
  {
    TextParses(c, v, limit);
    TextParses(d, w, limit);
    JsonCompare.CompareIff(ValueOf(v, Unnamed), ValueOf(w, Unnamed), sensitive);
  }

  // ---- printing a tree and parsing the text ----

  /** A value without NULs in its strings is what a printer makes of its tree. */
  lemma {:induction false} JsonOfValue(v: Json, name: Name)
    requires Printable(v)
    ensures JsonOf(ValueOf(v, name)) == v
    decreases v, 0
  {
    if v.Array? {
      ValueOfArray(v.items, name);
      JsonOfItems(v.items);
    } else if v.Object? {
      ValueOfObject(v.members, name);
      JsonOfMembers(v.members);
    }
  }

  lemma {:induction false} JsonOfItems(items: seq<Json>)
    requires AllPrintable(items)
    ensures JsonAll(ValuesOf(items)) == items
    decreases items, 1
  {
    if items != [] {
      JsonOfValue(items[0], Unnamed);
      JsonOfItems(items[1..]);
      assert ValuesOf(items)[1..] == ValuesOf(items[1..]);
    }
  }

  lemma {:induction false} JsonOfMembers(members: seq<Member>)
    requires AllMembersPrintable(members)
    ensures JsonMembers(MembersOf(members)) == members
    decreases members, 1
  {
    if members != [] {
      JsonOfMember(members[0]);
      JsonOfMembers(members[1..]);
      assert MembersOf(members)[1..] == MembersOf(members[1..]);
    }
  }

  lemma {:induction false} JsonOfMember(m: Member)
    requires NUL !in m.key && Printable(m.value)
    ensures JsonOf(MemberOf(m)) == m.value && KeyText(MemberOf(m).data.name) == m.key
    decreases m, 0
  {
    assert MemberOf(m) == ValueOf(m.value, Named(m.key));
    JsonOfValue(m.value, Named(m.key));
  }

  /** Two trees mean the same to the comparison. */
  ghost predicate SameMeaning(x: Value, y: Value, sensitive: bool) {
    && JsonCompare.CanonOf(x, sensitive) == JsonCompare.CanonOf(y, sensitive)
    && (JsonCompare.Consistent(x, sensitive) <==> JsonCompare.Consistent(y, sensitive))
    && JsonCompare.Plain(x) && JsonCompare.Plain(y)
  }

  /** The tree of what a printer makes of a tree means the same as that tree. */
  lemma {:induction false} ShownSame(x: Value, name: Name, sensitive: bool)
    requires JsonCompare.Plain(x)
    ensures SameMeaning(ValueOf(JsonOf(x), name), x, sensitive)
    decreases x, 0
  {
    var v := JsonOf(x);
    if x.data.kind.ArrayKind? {
      ValueOfArray(v.items, name);
      ItemsShownSame(x.children, sensitive);
    } else if x.data.kind.ObjectKind? {
      ValueOfObject(v.members, name);
      MembersShownSame(x.children, sensitive);
    }
  }

  lemma {:induction false} ItemsShownSame(s: seq<Value>, sensitive: bool)
    requires JsonCompare.AllPlain(s)
    ensures var t := ValuesOf(JsonAll(s));
            && JsonCompare.CanonAll(t, sensitive) == JsonCompare.CanonAll(s, sensitive) && JsonCompare.AllPlain(t)
            && (JsonCompare.AllConsistent(t, sensitive) <==> JsonCompare.AllConsistent(s, sensitive))
    decreases s, 1
  {
    if s != [] {
      var t := ValuesOf(JsonAll(s));
      ShownSame(s[0], Unnamed, sensitive);
      ItemsShownSame(s[1..], sensitive);
      assert JsonAll(s)[1..] == JsonAll(s[1..]);
      assert t[0] == ValueOf(JsonOf(s[0]), Unnamed) && t[1..] == ValuesOf(JsonAll(s[1..]));
      JsonCompare.ConsistentFirst(s, sensitive);
      JsonCompare.ConsistentFirst(t, sensitive);
      PlainFirst(t);
    }
  }

  lemma PlainFirst(t: seq<Value>)
    requires t != [] && JsonCompare.Plain(t[0]) && JsonCompare.AllPlain(t[1..])
    ensures JsonCompare.AllPlain(t)
  {
    forall i | 0 <= i < |t| ensures JsonCompare.Plain(t[i]) {
      if i > 0 { assert t[i] == t[1..][i - 1]; }
    }
  }

  lemma {:induction false} MemberShownSame(x: Value, sensitive: bool)
    requires JsonCompare.Plain(x) && x.data.name.Named?
    ensures var y := MemberOf(Member(KeyText(x.data.name), JsonOf(x)));
            && SameMeaning(y, x, sensitive) && y.data.name.Named?
            && JsonCompare.KeyOf(y, sensitive) == JsonCompare.KeyOf(x, sensitive)
    decreases x, 1
  {
    var m := Member(KeyText(x.data.name), JsonOf(x));
    assert MemberOf(m) == ValueOf(m.value, Named(m.key));
    ShownSame(x, Named(m.key), sensitive);
  }

  /** Members agree pairwise in name and meaning, so their objects mean the same. */
  lemma {:induction false} MembersShownSame(s: seq<Value>, sensitive: bool)
    requires JsonCompare.AllPlain(s) && JsonCompare.AllNamed(s)
    ensures var t := MembersOf(JsonMembers(s));
            && |t| == |s| && JsonCompare.AllPlain(t) && JsonCompare.AllNamed(t)
            && JsonCompare.Entries(t, sensitive) == JsonCompare.Entries(s, sensitive)
            && (JsonCompare.AllConsistent(t, sensitive) <==> JsonCompare.AllConsistent(s, sensitive))
            && (JsonCompare.Agree(t, sensitive) <==> JsonCompare.Agree(s, sensitive))
    decreases s, 2
  {
    var t := MembersOf(JsonMembers(s));
    forall i | 0 <= i < |s| ensures JsonCompare.SameMember(t[i], s[i], sensitive) && JsonCompare.Plain(t[i]) {
      ShownAt(s, i);
      MemberShownSame(s[i], sensitive);
    }
    JsonCompare.MemberwiseSame(t, s, sensitive);
    SameEntries(t, s, sensitive);
  }

  lemma {:induction false} ShownAt(s: seq<Value>, i: nat)
    requires i < |s|
    ensures MembersOf(JsonMembers(s))[i] == MemberOf(Member(KeyText(s[i].data.name), JsonOf(s[i])))
  {
    assert JsonMembers(s)[1..] == JsonMembers(s[1..]);
    if i > 0 { ShownAt(s[1..], i - 1); }
  }

  lemma {:induction false} SameEntries(t: seq<Value>, s: seq<Value>, sensitive: bool)
    requires |t| == |s| && forall i :: 0 <= i < |s| ==> JsonCompare.SameMember(t[i], s[i], sensitive)
    ensures JsonCompare.Entries(t, sensitive) == JsonCompare.Entries(s, sensitive)
  {
    if s != [] {
      assert forall i :: 0 <= i < |s[1..]| ==> t[1..][i] == t[i + 1] && s[1..][i] == s[i + 1];
      SameEntries(t[1..], s[1..], sensitive);
      assert JsonCompare.SameMember(t[0], s[0], sensitive);
    }
  }

  /**
   Prints a tree, parses the text and compares the result with the tree. The parse succeeds exactly if the tree nests
   within the limit; what it builds prints as the same value, but compares equal exactly if members of one name mean
   the same at every depth.
   */
  method PrintParseCompare(item: Item, fmt: bool, sensitive: bool, ghost t: Shape, ghost v: Json)
      returns (r: Item?, same: bool, ghost u: Shape)
    requires JsonPrinter.Shows(item, t, v) && JsonCompare.Plain(Contents(t)) && |Render(v, 0, fmt)| + 2 <= INT_MAX
    ensures r != null <==> Depth(v) <= NESTING_LIMIT
    ensures r != null ==> JsonPrinter.Shows(r, u, v) && fresh(u.nodes)
    ensures r != null ==> (same <==> JsonCompare.Consistent(Contents(t), sensitive))
  {
    var ok, text := JsonPrinter.Print(item, t, v, fmt);
    var p := new JsonParser.Parser(text);
    r, u := p.Document(true);
    RoundTrip(v, fmt, true, NESTING_LIMIT);
    JsonOfValue(v, Unnamed);
    same := false;
    if r != null {
      same := JsonComparer.CompareItems(item, r, sensitive, t, u);
      ReparsedCompares(Contents(t), v, Unnamed, sensitive);
      TreeList(item, t);
    }
  }

  /** A tree against that of the value it prints as. */
  lemma ReparsedCompares(x: Value, v: Json, name: Name, sensitive: bool)
    requires JsonCompare.Plain(x) && v == JsonOf(x)
    ensures JsonCompare.Compare(x, ValueOf(v, name), sensitive) <==> JsonCompare.Consistent(x, sensitive)
  {
    ShownSame(x, name, sensitive);
    JsonCompare.CompareIff(x, ValueOf(v, name), sensitive);
  }
}
