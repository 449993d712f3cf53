/**
 What the parser accepts is a text of the value it gives, by a grammar that is wider than the standard's only in its
 tokens: so parsing succeeds exactly on these texts, with exactly their values.
 */
module JsonAccepted {
  import opened Bytes
  import opened JsonText
  import opened JsonParse
  import opened JsonString
  import opened JsonTokens
  import opened Unicode
  import opened JsonRoundTrip

  // ---- whitespace ----

  /** Where a token is found, the step back at the end of the buffer did not happen. */
  lemma {:induction false} NoStepBack(c: seq<byte>, off: nat)
    requires off <= |c| && SkipWhitespace(c, off) < |c| && c[SkipWhitespace(c, off)] > 32
    ensures SkipWhitespace(c, off) == SkipBlank(c, off)
  {
    if off < |c| && SkipBlank(c, off) == |c| { AllBlank(c, off, |c| - 1); }
  }

  lemma {:induction false} AllBlank(c: seq<byte>, off: nat, k: nat)
    requires off <= k < |c| && SkipBlank(c, off) == |c|
    ensures c[k] <= 32
    decreases k - off
  {
    if off < k { AllBlank(c, off + 1, k); }
  }

  /** Nothing is parsed at a blank. */
  lemma NoValueAtBlank(c: seq<byte>, i: nat, left: nat)
    requires i <= |c| && ParseValue(c, i, left).Ok?
    ensures i < |c| && c[i] > 32
  {
    assert ParseValue(c, i, left) == ParseToken(c, i, left);
    if i < |c| { Literals(c, i); }
    if CanRead(c, i, NULL_TEXT) || CanRead(c, i, FALSE_TEXT) || CanRead(c, i, TRUE_TEXT) { assert i < |c|; }
  }

  // ---- values ----

  /** What the parser gives for the value at `i` is spelled there, and nests within the levels left. */
  ghost predicate Honest(v: Json, c: seq<byte>, i: nat, j: nat, left: nat) {
    Spells(v, c, i, j, false) && Depth(v) <= left
  }

  lemma {:induction false} ValueAccepted(c: seq<byte>, i: nat, left: nat)
    requires i <= |c| && ParseValue(c, i, left).Ok?
    ensures var r := ParseValue(c, i, left); Honest(r.value, c, i, r.off, left)
    decreases |c| - i, 3
  {
    NoValueAtBlank(c, i, left);
    Literals(c, i);
    assert ParseValue(c, i, left) == ParseToken(c, i, left);
    if Sees(c, i, OPEN_BRACKET) {
      ArrayAccepted(c, i, left);
    } else if Sees(c, i, OPEN_BRACE) {
      ObjectAccepted(c, i, left);
    } else {
      LeafAccepted(c, i, left);
    }
  }

  lemma LeafAccepted(c: seq<byte>, i: nat, left: nat)
    requires i < |c| && ParseToken(c, i, left).Ok? && c[i] != OPEN_BRACKET && c[i] != OPEN_BRACE
    ensures var r := ParseToken(c, i, left); Honest(r.value, c, i, r.off, left)
  {
    var r := ParseToken(c, i, left);
    Literals(c, i);
    assert SpellsNode(r.value, c, i, r.off, false);
  }

  lemma {:induction false} ArrayAccepted(c: seq<byte>, i: nat, left: nat)
    requires Sees(c, i, OPEN_BRACKET) && ParseArray(c, i, left).Ok?
    ensures var r := ParseArray(c, i, left); Honest(r.value, c, i, r.off, left)
    decreases |c| - i, 2
  {
    var r, p := ParseArray(c, i, left), SkipWhitespace(c, i + 1);
    if Sees(c, p, CLOSE_BRACKET) {
      NoStepBack(c, i + 1);
      EmptyArray(c, i, r.off);
    } else {
      var items := ElementsAccepted(c, p, left - 1, []);
      assert [] + items == items;
      FirstToken(c, i + 1, p, items, r.off);
      PackArray(c, i, items, r.off);
    }
  }

  lemma EmptyArray(c: seq<byte>, i: nat, j: nat)
    requires Sees(c, i, OPEN_BRACKET) && Sees(c, SkipBlank(c, i + 1), CLOSE_BRACKET) && j == SkipBlank(c, i + 1) + 1
    ensures Spells(Array([]), c, i, j, false)
  {
    assert SpellsNode(Array([]), c, i, j, false);
  }

  lemma PackArray(c: seq<byte>, i: nat, items: seq<Json>, j: nat)
    requires Sees(c, i, OPEN_BRACKET) && items != [] && SpellsItems(items, c, SkipBlank(c, i + 1), j, false)
    ensures Spells(Array(items), c, i, j, false)
  {
    assert SpellsNode(Array(items), c, i, j, false);
  }

  /** The elements start at a token, so skipping blanks once or twice is the same. */
  lemma FirstToken(c: seq<byte>, off: nat, p: nat, items: seq<Json>, j: nat)
    requires off <= |c| && p == SkipWhitespace(c, off) && items != []
    requires SpellsItems(items, c, SkipBlank(c, p), j, false)
    ensures SpellsItems(items, c, SkipBlank(c, off), j, false)
  {
    var e := UnpackItems(items, c, SkipBlank(c, p), j, false);
    FirstByte(items[0], c, SkipBlank(c, p), e, false);
    SkippedOnce(c, off, p);
  }

  lemma SkippedOnce(c: seq<byte>, off: nat, p: nat)
    requires off <= |c| && p == SkipWhitespace(c, off) && SkipBlank(c, p) < |c|
    ensures SkipBlank(c, p) == SkipBlank(c, off)
  {
    if off < |c| && SkipBlank(c, off) == |c| { BlankToEnd(c, off); } else { SkipTwice(c, off); }
  }

  lemma BlankToEnd(c: seq<byte>, off: nat)
    requires off < |c| && SkipBlank(c, off) == |c|
    ensures SkipBlank(c, |c| - 1) == |c|
  {
    AllBlank(c, off, |c| - 1);
    assert SkipBlank(c, |c|) == |c|;
  }

  /** The elements the loop adds to those already there. */
  lemma {:induction false} ElementsAccepted(c: seq<byte>, off: nat, left: nat, done: seq<Json>)
    returns (more: seq<Json>)
    requires off <= |c| && ParseElements(c, off, left, done).Ok?
    ensures var r := ParseElements(c, off, left, done);
            && more != [] && r.value == done + more && DepthAll(more) <= left
            && SpellsItems(more, c, SkipBlank(c, off), r.off, false)
    decreases |c| - off, 6
  {
    assert ParseElements(c, off, left, done) == ElementTurn(c, off, left, done);
    var r, p := ParseElements(c, off, left, done), ParseElement(c, off, left);
    ElementAccepted(c, off, left);
    var v, q := p.value, SkipWhitespace(c, p.off);
    NoStepBack(c, p.off);
    if Sees(c, q, COMMA) {
      var rest := ElementsAccepted(c, q + 1, left, done + [v]);
      more := [v] + rest;
      assert done + [v] + rest == done + more;
      PackMore(c, SkipBlank(c, off), p.off, v, rest, r.off, left);
    } else {
      more := [v];
      PackLast(c, SkipBlank(c, off), p.off, v, r.off, left);
    }
  }

  lemma {:induction false} ElementAccepted(c: seq<byte>, off: nat, left: nat)
    requires off <= |c| && ParseElement(c, off, left).Ok?
    ensures var r := ParseElement(c, off, left); Honest(r.value, c, SkipBlank(c, off), r.off, left)
    decreases |c| - off, 5
  {
    assert ParseElement(c, off, left) == ParseValue(c, SkipWhitespace(c, off), left);
    NoValueAtBlank(c, SkipWhitespace(c, off), left);
    NoStepBack(c, off);
    ValueAccepted(c, SkipBlank(c, off), left);
  }

  lemma PackMore(c: seq<byte>, i: nat, e: nat, v: Json, rest: seq<Json>, j: nat, left: nat)
    requires Honest(v, c, i, e, left) && e <= |c| && Sees(c, SkipBlank(c, e), COMMA) && rest != []
    requires SpellsItems(rest, c, SkipBlank(c, SkipBlank(c, e) + 1), j, false) && DepthAll(rest) <= left
    ensures SpellsItems([v] + rest, c, i, j, false) && DepthAll([v] + rest) <= left
  {
    var all := [v] + rest;
    assert all[0] == v && all[1..] == rest;
    assert AfterItem(all[1..], c, e, j, false);
  }

  lemma PackLast(c: seq<byte>, i: nat, e: nat, v: Json, j: nat, left: nat)
    requires Honest(v, c, i, e, left) && e <= |c| && Sees(c, SkipBlank(c, e), CLOSE_BRACKET) && j == SkipBlank(c, e) + 1
    ensures SpellsItems([v], c, i, j, false) && DepthAll([v]) <= left
  {
    var all := [v];
    assert all[0] == v && all[1..] == [];
    assert AfterItem(all[1..], c, e, j, false);
  }

  lemma {:induction false} ObjectAccepted(c: seq<byte>, i: nat, left: nat)
    requires Sees(c, i, OPEN_BRACE) && ParseObject(c, i, left).Ok?
    ensures var r := ParseObject(c, i, left); Honest(r.value, c, i, r.off, left)
    decreases |c| - i, 2
  {
    var r, p := ParseObject(c, i, left), SkipWhitespace(c, i + 1);
    if Sees(c, p, CLOSE_BRACE) {
      NoStepBack(c, i + 1);
      EmptyObject(c, i, r.off);
    } else {
      var members := MembersAccepted(c, p, left - 1, []);
      assert [] + members == members;
      FirstName(c, i + 1, p, members, r.off);
      PackMembersIn(c, i, members, r.off);
    }
  }

  lemma EmptyObject(c: seq<byte>, i: nat, j: nat)
    requires Sees(c, i, OPEN_BRACE) && Sees(c, SkipBlank(c, i + 1), CLOSE_BRACE) && j == SkipBlank(c, i + 1) + 1
    ensures Spells(Object([]), c, i, j, false)
  {
    assert SpellsNode(Object([]), c, i, j, false);
  }

  lemma PackMembersIn(c: seq<byte>, i: nat, members: seq<Member>, j: nat)
    requires Sees(c, i, OPEN_BRACE) && members != [] && SpellsMembers(members, c, SkipBlank(c, i + 1), j, false)
    ensures Spells(Object(members), c, i, j, false)
  {
    assert SpellsNode(Object(members), c, i, j, false);
  }

  lemma FirstName(c: seq<byte>, off: nat, p: nat, members: seq<Member>, j: nat)
    requires off <= |c| && p == SkipWhitespace(c, off) && members != []
    requires SpellsMembers(members, c, SkipBlank(c, p), j, false)
    ensures SpellsMembers(members, c, SkipBlank(c, off), j, false)
  {
    var e := UnpackMembers(members, c, SkipBlank(c, p), j, false);
    var f, w := UnpackMember(members[0], c, SkipBlank(c, p), e, false);
    SkippedOnce(c, off, p);
  }

  lemma {:induction false} MembersAccepted(c: seq<byte>, off: nat, left: nat, done: seq<Member>)
    returns (more: seq<Member>)
    requires off <= |c| && ParseMembers(c, off, left, done).Ok?
    ensures var r := ParseMembers(c, off, left, done);
            && more != [] && r.value == done + more && DepthMembers(more) <= left
            && SpellsMembers(more, c, SkipBlank(c, off), r.off, false)
    decreases |c| - off, 8
  {
    assert ParseMembers(c, off, left, done) == MemberTurn(c, off, left, done);
    var r, p := ParseMembers(c, off, left, done), ParseMember(c, off, left);
    MemberAccepted(c, off, left);
    var m, q := p.value, SkipWhitespace(c, p.off);
    NoStepBack(c, p.off);
    if Sees(c, q, COMMA) {
      var rest := MembersAccepted(c, q + 1, left, done + [m]);
      more := [m] + rest;
      assert done + [m] + rest == done + more;
      PackMoreMembers(c, SkipBlank(c, off), p.off, m, rest, r.off, left);
    } else {
      more := [m];
      PackOneMember(c, SkipBlank(c, off), p.off, m, r.off, left);
    }
  }

  lemma PackMoreMembers(c: seq<byte>, i: nat, e: nat, m: Member, rest: seq<Member>, j: nat, left: nat)
    requires SpellsMember(m, c, i, e, false) && Depth(m.value) <= left
    requires e <= |c| && Sees(c, SkipBlank(c, e), COMMA) && rest != []
    requires SpellsMembers(rest, c, SkipBlank(c, SkipBlank(c, e) + 1), j, false) && DepthMembers(rest) <= left
    ensures SpellsMembers([m] + rest, c, i, j, false) && DepthMembers([m] + rest) <= left
  {
    var all := [m] + rest;
    assert all[0] == m && all[1..] == rest;
    assert AfterMember(all[1..], c, e, j, false);
  }

  lemma PackOneMember(c: seq<byte>, i: nat, e: nat, m: Member, j: nat, left: nat)
    requires SpellsMember(m, c, i, e, false) && Depth(m.value) <= left
    requires e <= |c| && Sees(c, SkipBlank(c, e), CLOSE_BRACE) && j == SkipBlank(c, e) + 1
    ensures SpellsMembers([m], c, i, j, false) && DepthMembers([m]) <= left
  {
    var all := [m];
    assert all[0] == m && all[1..] == [];
    assert AfterMember(all[1..], c, e, j, false);
  }

  lemma {:induction false} MemberAccepted(c: seq<byte>, off: nat, left: nat)
    requires off <= |c| && ParseMember(c, off, left).Ok?
    ensures var r := ParseMember(c, off, left);
            SpellsMember(r.value, c, SkipBlank(c, off), r.off, false) && Depth(r.value.value) <= left
    decreases |c| - off, 5
  {
    assert ParseMember(c, off, left) == ParsePair(c, off, left);
    var r, i := ParseMember(c, off, left), SkipWhitespace(c, off);
    var key := ParseString(c, i);
    assert Sees(c, i, QUOTE);
    NoStepBack(c, off);
    var k := SkipWhitespace(c, key.off);
    assert Sees(c, k, COLON);
    NoStepBack(c, key.off);
    ElementAccepted(c, k + 1, left);
    PackPair(r.value, c, i, key.off, r.off);
  }

  lemma PackPair(m: Member, c: seq<byte>, i: nat, e: nat, j: nat)
    requires StringAt(m.key, c, i, e, false) && e <= |c| && Sees(c, SkipBlank(c, e), COLON)
    requires Spells(m.value, c, SkipBlank(c, SkipBlank(c, e) + 1), j, false)
    ensures SpellsMember(m, c, i, j, false)
  {
    assert AfterKey(m, c, e, j, false);
    assert SpellsPair(m, c, i, j, false);
  }

  // ---- the wider tokens ----

  predicate IsHex(b: byte) {
    HexValue(b).Ok?
  }

  /** A `\u` whose four digits are not all digits: it swallows them and stands for NUL. */
  predicate BadEscape(c: seq<byte>, i: nat) {
    && i + 6 <= |c| && c[i] == BACKSLASH && c[i + 1] == LETTER_U
    && !(IsHex(c[i + 2]) && IsHex(c[i + 3]) && IsHex(c[i + 4]) && IsHex(c[i + 5]))
  }

  /** A character by the wider grammar, from `i` up to `n`: any byte but a backslash may stand for itself. */
  ghost predicate LooseChar(bytes: seq<byte>, c: seq<byte>, i: nat, n: nat) {
    if !Sees(c, i, BACKSLASH) then i < |c| && bytes == [c[i]] && n == i + 1
    else if !Sees(c, i + 1, LETTER_U) then
      i + 1 < |c| && c[i + 1] in ESCAPES && bytes == [ESCAPES[c[i + 1]]] && n == i + 2
    else if BadEscape(c, i) then bytes == [NUL] && n == i + 6
    else exists code: CodePoint ::
        IsScalar(code) && CodeAt(c, i, code) && bytes == Utf8(code) && n == i + CodeLength(code)
  }

  lemma HexIsDigit(b: byte)
    requires IsHex(b)
    ensures IsHexDigit(b, HexValue(b).value)
  {
    HexValueIs(b, HexValue(b).value);
  }

  lemma FourDigits(a: nat, b: nat, d: nat, e: nat, n: nat)
    requires a < 16 && b < 16 && d < 16 && e < 16 && n == ((a * 16 + b) * 16 + d) * 16 + e
    ensures n / 0x1000 == a && n / 0x100 % 16 == b && n / 0x10 % 16 == d && n % 16 == e
  {
    assert n / 0x10 == (a * 16 + b) * 16 + d;
    assert n / 0x100 == a * 16 + b;
  }

  /** Four good digits are the escape of their value. */
  lemma GoodEscape(c: seq<byte>, i: nat)
    requires i + 6 <= |c| && c[i] == BACKSLASH && c[i + 1] == LETTER_U
    requires IsHex(c[i + 2]) && IsHex(c[i + 3]) && IsHex(c[i + 4]) && IsHex(c[i + 5])
    ensures EscapeAt(c, i, Hex4(c, i + 2))
  {
    HexIsDigit(c[i + 2]);
    HexIsDigit(c[i + 3]);
    HexIsDigit(c[i + 4]);
    HexIsDigit(c[i + 5]);
    FourDigits(HexValue(c[i + 2]).value, HexValue(c[i + 3]).value, HexValue(c[i + 4]).value, HexValue(c[i + 5]).value,
               Hex4(c, i + 2));
  }

  lemma UnitIsLoose(c: seq<byte>, i: nat, end: nat)
    requires i < end < |c| && Unit(c, i, end).Ok?
    ensures var r := Unit(c, i, end); LooseChar(r.value, c, i, i + r.off) && Within(i, i + r.off, end)
  {
    if c[i] == BACKSLASH && c[i + 1] != LETTER_U {
      StandardEscapes(c, i, end);
    } else if c[i] == BACKSLASH && !BadEscape(c, i) {
      var u := Utf16At(c, i, end);
      CodeIsLoose(c, i, end);
      assert IsScalar(u.value) && CodeAt(c, i, u.value);
    }
  }

  lemma CodeIsLoose(c: seq<byte>, i: nat, end: nat)
    requires i < end < |c| && c[i] == BACKSLASH && c[i + 1] == LETTER_U && !BadEscape(c, i)
    requires Utf16At(c, i, end).Ok?
    ensures var u := Utf16At(c, i, end); IsScalar(u.value) && CodeAt(c, i, u.value) && u.off == CodeLength(u.value)
  {
    var u := Utf16At(c, i, end);
    GoodEscape(c, i);
    if u.off == 12 {
      PairIsLoose(c, i, u.value, Hex4(c, i + 2) - 0xD800, Hex4(c, i + 8) - 0xDC00);
    }
  }

  lemma PairIsLoose(c: seq<byte>, i: nat, n: CodePoint, high: nat, low: nat)
    requires i + 12 <= |c| && high < 0x400 && low < 0x400 && n == 0x1_0000 + high * 0x400 + low
    requires EscapeAt(c, i, 0xD800 + high) && c[i + 6] == BACKSLASH && c[i + 7] == LETTER_U
    requires Hex4(c, i + 8) == 0xDC00 + low
    ensures IsScalar(n) && CodeAt(c, i, n) && CodeLength(n) == 12
  {
    SecondIsGood(c, i + 6);
    GoodEscape(c, i + 6);
    SameHalves(n, high, low);
  }

  lemma SecondIsGood(c: seq<byte>, i: nat)
    requires i + 6 <= |c| && Hex4(c, i + 2) != 0
    ensures IsHex(c[i + 2]) && IsHex(c[i + 3]) && IsHex(c[i + 4]) && IsHex(c[i + 5])
  {
  }

  lemma SameHalves(n: CodePoint, high: nat, low: nat)
    requires high < 0x400 && low < 0x400 && n == 0x1_0000 + high * 0x400 + low
    ensures HighBits(n) == high && LowBits(n) == low
  {
  }

  /** A character ends in front of the closing quote; only a short escape may take the quote for its second byte. */
  predicate Within(i: nat, n: nat, end: nat) {
    i < n <= end || n == i + 2 == end + 1
  }

  /** `s` is what the characters from `i` on stand for, up to the closing quote or one beyond it. */
  ghost predicate LooseChars(s: seq<byte>, c: seq<byte>, i: nat, end: nat)
    decreases end + 1 - i, 1
  {
    FirstLoose(s, c, i, end)
  }

  ghost predicate FirstLoose(s: seq<byte>, c: seq<byte>, i: nat, end: nat)
    decreases end + 1 - i, 0
  {
    if i >= end then s == [] && i <= end + 1
    else exists bytes, n: nat :: LooseChar(bytes, c, i, n) && LooseRest(bytes, s, c, i, n, end)
  }

  ghost predicate LooseRest(bytes: seq<byte>, s: seq<byte>, c: seq<byte>, i: nat, n: nat, end: nat)
    requires i < end
    decreases end + 1 - i, 0, 0
  {
    Within(i, n, end) && bytes <= s && LooseChars(s[|bytes|..], c, n, end)
  }

  lemma PackLoose(bytes: seq<byte>, rest: seq<byte>, c: seq<byte>, i: nat, n: nat, end: nat)
    requires i < end && Within(i, n, end) && LooseChar(bytes, c, i, n) && LooseChars(rest, c, n, end)
    ensures LooseChars(bytes + rest, c, i, end)
  {
    var s := bytes + rest;
    assert s[|bytes|..] == rest;
    assert LooseRest(bytes, s, c, i, n, end);
    assert FirstLoose(s, c, i, end);
  }

  lemma NothingLeft(c: seq<byte>, i: nat, end: nat)
    requires end <= i <= end + 1
    ensures LooseChars([], c, i, end)
  {
    assert FirstLoose([], c, i, end);
  }

  lemma UnescapeOne(c: seq<byte>, i: nat, end: nat, acc: seq<byte>) returns (bytes: seq<byte>, n: nat)
    requires i < end < |c| && Unescape(c, i, end, acc).Ok?
    ensures Within(i, n, end) && Unescape(c, i, end, acc) == Unescape(c, n, end, acc + bytes)
    ensures LooseChar(bytes, c, i, n)
  {
    UnescapeUnit(c, i, end, acc);
    var u := Unit(c, i, end);
    bytes, n := u.value, i + u.off;
    UnitIsLoose(c, i, end);
  }

  lemma UnescapeUnit(c: seq<byte>, i: nat, end: nat, acc: seq<byte>)
    requires i < end < |c| && Unescape(c, i, end, acc).Ok?
    ensures var u := Unit(c, i, end);
            u.Ok? && Unescape(c, i, end, acc) == Unescape(c, i + u.off, end, acc + u.value)
  {
  }

  lemma {:induction false} UnescapedIsLoose(c: seq<byte>, i: nat, end: nat, acc: seq<byte>) returns (s: seq<byte>)
    requires i <= end + 1 && end < |c| && Unescape(c, i, end, acc).Ok?
    ensures Unescape(c, i, end, acc).value == acc + s && LooseChars(s, c, i, end)
    decreases end + 1 - i
  {
    if i >= end {
      s := [];
      assert acc + [] == acc;
      NothingLeft(c, i, end);
    } else {
      var bytes, n := UnescapeOne(c, i, end, acc);
      var rest := UnescapedIsLoose(c, n, end, acc + bytes);
      s := bytes + rest;
      Regrouped(acc, bytes, rest);
      PackLoose(bytes, rest, c, i, n, end);
    }
  }

  /** A string the parser takes ends at the first quote that is not escaped, and is made of such characters. */
  lemma StringIsLoose(s: seq<byte>, c: seq<byte>, i: nat, j: nat)
    requires Sees(c, i, QUOTE) && ReadsString(s, c, i, j)
    ensures j > i + 1 && ClosesAt(c, i + 1, j - 1) && LooseChars(s, c, i + 1, j - 1)
  {
    StringPasses(s, c, i, j);
    var t := UnescapedIsLoose(c, i + 1, j - 1, []);
    assert [] + t == t;
  }

  lemma StringPasses(s: seq<byte>, c: seq<byte>, i: nat, j: nat)
    requires Sees(c, i, QUOTE) && ReadsString(s, c, i, j)
    ensures j > i + 1 && ClosesAt(c, i + 1, j - 1) && Unescapes(c, i + 1, j - 1, [], s)
  {
  }

  /** And the other way round: the second pass turns such characters into what they stand for. */
  lemma LooseUnit(bytes: seq<byte>, c: seq<byte>, i: nat, n: nat, end: nat)
    requires i < end < |c| && LooseChar(bytes, c, i, n) && Within(i, n, end)
    ensures Unit(c, i, end) == Ok(bytes, n - i)
  {
    if Sees(c, i, BACKSLASH) {
      if !Sees(c, i + 1, LETTER_U) {
        StandardEscapes(c, i, end);
      } else if BadEscape(c, i) {
        assert Hex4(c, i + 2) == 0 && Utf16At(c, i, end) == Ok(0, 6);
      } else {
        var code: CodePoint :| IsScalar(code) && CodeAt(c, i, code) && bytes == Utf8(code) && n == i + CodeLength(code);
        CodeBack(c, i, end, code);
      }
    }
  }

  lemma FirstLooseChar(s: seq<byte>, c: seq<byte>, i: nat, end: nat)
    returns (bytes: seq<byte>, n: nat, rest: seq<byte>)
    requires i < end && LooseChars(s, c, i, end)
    ensures LooseChar(bytes, c, i, n) && Within(i, n, end) && s == bytes + rest && LooseChars(rest, c, n, end)
  {
    assert FirstLoose(s, c, i, end);
    bytes, n :| LooseChar(bytes, c, i, n) && LooseRest(bytes, s, c, i, n, end);
    rest := s[|bytes|..];
  }

  lemma {:induction false} LooseUnescapes(s: seq<byte>, c: seq<byte>, i: nat, end: nat, acc: seq<byte>)
    requires i <= end + 1 && end < |c| && LooseChars(s, c, i, end)
    ensures Unescapes(c, i, end, acc, acc + s)
    decreases end + 1 - i
  {
    if i >= end {
      assert FirstLoose(s, c, i, end);
      assert acc + [] == acc;
    } else {
      var bytes, n, rest := FirstLooseChar(s, c, i, end);
      LooseUnit(bytes, c, i, n, end);
      LooseUnescapes(rest, c, n, end, acc + bytes);
      Regrouped(acc, bytes, rest);
      assert Unescape(c, i, end, acc) == Unescape(c, n, end, acc + bytes);
    }
  }

  /** So the parser takes exactly the strings of the wider grammar. */
  lemma StringIff(s: seq<byte>, c: seq<byte>, i: nat, j: nat)
    requires Sees(c, i, QUOTE)
    ensures ReadsString(s, c, i, j) <==> j > i + 1 && ClosesAt(c, i + 1, j - 1) && LooseChars(s, c, i + 1, j - 1)
  {
    if ReadsString(s, c, i, j) { StringIsLoose(s, c, i, j); }
    if j > i + 1 && ClosesAt(c, i + 1, j - 1) && LooseChars(s, c, i + 1, j - 1) {
      LooseUnescapes(s, c, i + 1, j - 1, []);
      assert [] + s == s;
      PassesAgree(c, i, j - 1, s);
    }
  }

  /** A number by the wider grammar: leading zeros, and digits missing on one side of the dot. */
  datatype LooseNumeral = LooseNumeral(negative: bool, whole: seq<byte>, dot: bool, frac: seq<byte>, exp: LooseExponent)
  datatype LooseExponent = NoExponent | LooseExponent(letter: byte, sign: Sign, digits: seq<byte>)

  ghost predicate IsLoose(n: LooseNumeral) {
    && AllDigits(n.whole) && AllDigits(n.frac) && (n.whole != [] || n.frac != []) && (n.frac != [] ==> n.dot)
    && (n.exp.NoExponent? ||
        (AllDigits(n.exp.digits) && n.exp.digits != [] && (n.exp.letter == 0x65 || n.exp.letter == 0x45)))
  }

  function LooseText(n: LooseNumeral): seq<byte> {
    (if n.negative then [MINUS] else []) + n.whole + (if n.dot then [DOT] + n.frac else []) + LooseExponentText(n.exp)
  }

  function LooseExponentText(e: LooseExponent): seq<byte> {
    match e case NoExponent => [] case LooseExponent(letter, sign, digits) => [letter] + SignText(sign) + digits
  }

  ghost function LooseDenoted(n: LooseNumeral): Decimal
    requires IsLoose(n)
  {
    var m: int := DigitsValue(n.whole + n.frac);
    Decimal(if n.negative then -m else m, LooseExponentValue(n.exp) - |n.frac|)
  }

  ghost function LooseExponentValue(e: LooseExponent): int
    requires e.LooseExponent? ==> AllDigits(e.digits)
  {
    match e
    case NoExponent => 0
    case LooseExponent(_, sign, digits) => var m: int := DigitsValue(digits); if sign.Minus? then -m else m
  }

  /** The digits of the exponent at `k`, if there is one, start at `j`. */
  lemma ExponentDigits(t: seq<byte>, k: nat) returns (j: nat, digits: seq<byte>)
    requires k <= |t| && ExponentAt(t, k).used > 0
    ensures k < |t| && (t[k] == 0x65 || t[k] == 0x45) && j == k + 1 + IsSign(t, k + 1) <= |t|
    ensures j + |digits| == k + ExponentAt(t, k).used && t[j..j + |digits|] == digits != [] && AllDigits(digits)
    ensures var m: int := DigitsValue(digits);
            ExponentAt(t, k).value == if j > k + 1 && t[k + 1] == MINUS then -m else m
  {
    j := k + 1 + IsSign(t, k + 1);
    digits := Digits(t, j);
    assert j == k + 1 ==> IsDigit(t[j]);
  }

  lemma ExponentBuilt(t: seq<byte>, k: nat, j: nat, end: nat, sign: Sign, digits: seq<byte>)
    requires k < j <= end <= |t| && t[k + 1..j] == SignText(sign) && t[j..end] == digits
    ensures t[k..end] == LooseExponentText(LooseExponent(t[k], sign, digits))
  {
    ThreeParts(t, k, j, end);
  }

  /** The exponent at `k`, as the parser takes it, written out. */
  lemma ExponentIsLoose(t: seq<byte>, k: nat) returns (e: LooseExponent)
    requires k <= |t|
    ensures var r := ExponentAt(t, k);
            && t[k..k + r.used] == LooseExponentText(e)
            && (e.LooseExponent? ==> AllDigits(e.digits) && e.digits != [] && (e.letter == 0x65 || e.letter == 0x45))
            && r.value == LooseExponentValue(e)
  {
    var r := ExponentAt(t, k);
    if r.used == 0 {
      e := NoExponent;
    } else {
      var j, digits := ExponentDigits(t, k);
      var sign := if j == k + 1 then NoSign else if t[k + 1] == MINUS then Minus else Plus;
      SignIs(t, k + 1, j, sign);
      ExponentBuilt(t, k, j, k + r.used, sign, digits);
      e := LooseExponent(t[k], sign, digits);
    }
  }

  lemma SignIs(t: seq<byte>, i: nat, j: nat, sign: Sign)
    requires i <= j <= |t| && j == i + IsSign(t, i)
    requires sign == if j == i then NoSign else if t[i] == MINUS then Minus else Plus
    ensures t[i..j] == SignText(sign)
  {
  }

  lemma ThreeParts(t: seq<byte>, k: nat, j: nat, end: nat)
    requires k < j <= end <= |t|
    ensures t[k..end] == [t[k]] + t[k + 1..j] + t[j..end]
  {
  }

  /** The digits in front of the dot, the dot, and the digits behind it. */
  lemma StrtodSplit(t: seq<byte>) returns (i: nat, whole: seq<byte>, dot: bool, frac: seq<byte>, k: nat)
    requires Strtod(t).Ok?
    ensures i == IsSign(t, 0) && k <= |t| && AllDigits(whole) && AllDigits(frac) && (whole != [] || frac != [])
    ensures Strtod(t) == DecimalAt(t, i == 1 && t[0] == MINUS, whole + frac, |frac|, k)
    ensures var j := i + |whole|;
            && j <= k && t[i..j] == whole && (!dot ==> k == j && frac == [])
            && (dot ==> j < k && t[j] == DOT && k == j + 1 + |frac| && t[j + 1..k] == frac)
  {
    i := IsSign(t, 0);
    whole := Digits(t, i);
    var j := i + |whole|;
    dot := j < |t| && t[j] == DOT;
    frac := if dot then Digits(t, j + 1) else [];
    k := if dot then j + 1 + |frac| else j;
    if !dot { assert whole + frac == whole; }
  }

  lemma StrtodIsLoose(t: seq<byte>) returns (n: LooseNumeral)
    requires t != [] && t[0] != PLUS && Strtod(t).Ok?
    ensures var r := Strtod(t); IsLoose(n) && t[..r.off] == LooseText(n) && r.value == LooseDenoted(n)
  {
    var i, whole, dot, frac, k := StrtodSplit(t);
    var e := ExponentIsLoose(t, k);
    n := LooseNumeral(i == 1, whole, dot, frac, e);
    assert IsLoose(n);
    assert n.negative == (i == 1 && t[0] == MINUS);
    DecimalDenotes(n, t, k);
    LooseBuilt(t, i, i + |whole|, k, k + ExponentAt(t, k).used, n);
  }

  lemma DecimalDenotes(n: LooseNumeral, t: seq<byte>, k: nat)
    requires IsLoose(n) && k <= |t| && ExponentAt(t, k).value == LooseExponentValue(n.exp)
    ensures DecimalAt(t, n.negative, n.whole + n.frac, |n.frac|, k) == Ok(LooseDenoted(n), k + ExponentAt(t, k).used)
  {
  }

  lemma LooseBuilt(t: seq<byte>, i: nat, j: nat, k: nat, end: nat, n: LooseNumeral)
    requires i <= j <= k <= end <= |t| && i == (if n.negative then 1 else 0) && (i == 1 ==> t[0] == MINUS)
    requires t[i..j] == n.whole && t[k..end] == LooseExponentText(n.exp)
    requires if n.dot then j < |t| && t[j] == DOT && k == j + 1 + |n.frac| && t[j + 1..k] == n.frac else k == j
    ensures t[..end] == LooseText(n)
  {
    LooseParts(t, i, j, k, end);
    if n.negative { assert t[..i] == [MINUS]; }
    if n.dot { assert t[j..k] == [DOT] + n.frac; }
  }

  lemma LooseParts(t: seq<byte>, i: nat, j: nat, k: nat, end: nat)
    requires i <= j <= k <= end <= |t|
    ensures t[..end] == t[..i] + t[i..j] + t[j..k] + t[k..end]
  {
  }

  /** A number the parser takes is such a number, and its value is what that denotes. */
  lemma NumberIsLoose(d: Decimal, c: seq<byte>, i: nat, j: nat) returns (n: LooseNumeral)
    requires ReadsNumber(d, c, i, j)
    ensures IsLoose(n) && CanRead(c, i, LooseText(n)) && j == i + |LooseText(n)| <= i + 63 && d == LooseDenoted(n)
  {
    var t := NumberText(c, i);
    assert |t| > 0 && t[0] == c[i];
    n := StrtodIsLoose(t);
    assert c[i..j] == t[..j - i];
  }

  // And the other way round.

  lemma LooseExponentBack(t: seq<byte>, k: nat, e: LooseExponent)
    requires k <= |t| && t[k..] == LooseExponentText(e)
    requires e.LooseExponent? ==> AllDigits(e.digits) && e.digits != [] && (e.letter == 0x65 || e.letter == 0x45)
    ensures ExponentAt(t, k) == Exponent(LooseExponentValue(e), |t| - k)
  {
    if e.LooseExponent? {
      var x := t[k..];
      assert forall m :: k <= m < |t| ==> t[m] == x[m - k];
      var j := k + 1 + |SignText(e.sign)|;
      assert t[j..|t|] == e.digits;
      DigitsAre(t, j, |t|, e.digits);
    }
  }

  lemma SplitAtDot(t: seq<byte>, i: nat, j: nat, k: nat, whole: seq<byte>, frac: seq<byte>)
    requires i == IsSign(t, 0) && i <= j < k <= |t| && Digits(t, i) == whole && i + |whole| == j && t[j] == DOT
    requires Digits(t, j + 1) == frac && k == j + 1 + |frac| && (whole != [] || frac != [])
    ensures Strtod(t) == DecimalAt(t, i == 1 && t[0] == MINUS, whole + frac, |frac|, k)
  {
  }

  lemma LooseSplit(t: seq<byte>, i: nat, j: nat, k: nat, n: LooseNumeral)
    requires IsLoose(n) && i == IsSign(t, 0) && i <= j <= k <= |t| && t[i..j] == n.whole
    requires k == |t| || t[k] == 0x65 || t[k] == 0x45
    requires if n.dot then j < |t| && t[j] == DOT && k == j + 1 + |n.frac| && t[j + 1..k] == n.frac else k == j
    ensures Strtod(t) == DecimalAt(t, i == 1 && t[0] == MINUS, n.whole + n.frac, |n.frac|, k)
  {
    if n.dot {
      DigitsAre(t, i, j, n.whole);
      DigitsAre(t, j + 1, k, n.frac);
      SplitAtDot(t, i, j, k, n.whole, n.frac);
    } else {
      StrtodParts(t, i, j, k, n.whole, n.frac);
    }
  }

  lemma LooseTextParts(n: LooseNumeral, t: seq<byte>, i: nat, j: nat, k: nat)
    requires IsLoose(n) && t == LooseText(n) && i == (if n.negative then 1 else 0) && j == i + |n.whole|
    requires k == if n.dot then j + 1 + |n.frac| else j
    ensures i <= j <= k <= |t| && t[i..j] == n.whole && (n.negative ==> t[0] == MINUS) && IsSign(t, 0) == i
    ensures n.dot ==> t[j] == DOT && t[j + 1..k] == n.frac
    ensures t[k..] == LooseExponentText(n.exp) && (k == |t| || t[k] == 0x65 || t[k] == 0x45)
  {
    var a: seq<byte> := if n.negative then [MINUS] else [];
    var b := if n.dot then [DOT] + n.frac else [];
    FourParts(a, n.whole, b, LooseExponentText(n.exp), t, i, j, k);
    if n.dot { SecondOf(t, j, k, DOT, n.frac); }
  }

  lemma StrtodReadsLoose(n: LooseNumeral)
    requires IsLoose(n)
    ensures Strtod(LooseText(n)) == Ok(LooseDenoted(n), |LooseText(n)|)
  {
    var t := LooseText(n);
    var i := if n.negative then 1 else 0;
    var j := i + |n.whole|;
    var k := if n.dot then j + 1 + |n.frac| else j;
    LooseTextParts(n, t, i, j, k);
    LooseSplit(t, i, j, k, n);
    LooseExponentBack(t, k, n.exp);
    DecimalDenotes(n, t, k);
  }

  lemma LooseBytes(n: LooseNumeral)
    requires IsLoose(n) && (n.negative || n.whole != [])
    ensures var t := LooseText(n);
            t != [] && (t[0] == MINUS || IsDigit(t[0])) && forall k :: 0 <= k < |t| ==> IsNumberByte(t[k])
  {
  }

  /** A number of the wider grammar, not longer than the parser's buffer, is read whole if no number byte follows. */
  lemma LooseNumberBack(n: LooseNumeral, c: seq<byte>, i: nat)
    requires IsLoose(n) && (n.negative || n.whole != []) && |LooseText(n)| <= 63
    requires CanRead(c, i, LooseText(n)) && Ends(c, i + |LooseText(n)|)
    ensures ReadsNumber(LooseDenoted(n), c, i, i + |LooseText(n)|)
  {
    var t := LooseText(n);
    LooseBytes(n);
    NumberTextBack(c, i, t);
    StrtodReadsLoose(n);
    ReadByte(c, i, t, 0);
  }

  // ---- exactly ----

  /** The parser gives `v` and stops at `j` exactly if that is a text of `v`, and `v` nests within the levels left. */
  lemma AcceptedIff(v: Json, c: seq<byte>, i: nat, j: nat, left: nat)
    requires i <= |c|
    ensures ParseValue(c, i, left) == Ok(v, j) <==> Spells(v, c, i, j, false) && Depth(v) <= left
  {
    if ParseValue(c, i, left) == Ok(v, j) { ValueAccepted(c, i, left); }
    if Spells(v, c, i, j, false) { ValueBack(v, c, i, j, left, false); }
  }

  /** And a whole buffer, if only whitespace and a NUL follow where a terminator is required. */
  lemma DocumentAcceptedIff(v: Json, c: seq<byte>, terminated: bool, limit: nat)
    ensures (exists off :: Parse(c, terminated, limit) == Ok(v, off)) <==>
            Depth(v) <= limit && exists j: nat :: Spells(v, c, Start(c), j, false) && Terminates(c, j, terminated)
  {
    if exists j: nat :: Spells(v, c, Start(c), j, false) && Terminates(c, j, terminated) {
      var j: nat :| Spells(v, c, Start(c), j, false) && Terminates(c, j, terminated);
      DocumentBack(v, c, j, terminated, limit, false);
      if Depth(v) <= limit { assert Parse(c, terminated, limit) == Ok(v, Parse(c, terminated, limit).off); }
    }
    if exists off :: Parse(c, terminated, limit) == Ok(v, off) {
      var i := SkipWhitespace(c, if HasBom(c) then 3 else 0);
      NoValueAtBlank(c, i, limit);
      NoStepBack(c, if HasBom(c) then 3 else 0);
      ValueAccepted(c, i, limit);
      assert Terminates(c, ParseValue(c, i, limit).off, terminated);
    }
  }

  ghost predicate Terminates(c: seq<byte>, j: nat, terminated: bool) {
    j <= |c| && (terminated ==> Sees(c, SkipWhitespace(c, j), NUL))
  }
}
