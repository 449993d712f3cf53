/**
 What stands around the value in a buffer: the parser takes no notice of where a text starts, skips a byte order mark
 in front of it and, if a terminator is required, accepts nothing but blanks up to a final NUL behind it.
 */
module JsonMarks {
  import opened Bytes
  import opened JsonText
  import opened JsonParse
  import opened JsonTokens
  import opened JsonRoundTrip
  import opened JsonAccepted

  // ---- a text that starts later ----

  function Later<T>(r: Parsed<T>, n: nat): Parsed<T> {
    match r case Fail => Fail case Ok(v, off) => Ok(v, off + n)
  }

  /** From `n` on the buffer `c` is `t`. */
  ghost predicate Tail(c: seq<byte>, n: nat, t: seq<byte>) {
    |c| == n + |t| && forall k :: 0 <= k < |t| ==> c[n + k] == t[k]
  }

  lemma {:induction false} BlankLater(c: seq<byte>, n: nat, t: seq<byte>, i: nat)
    requires Tail(c, n, t) && i <= |t|
    ensures SkipBlank(c, n + i) == n + SkipBlank(t, i)
    decreases |t| - i
  {
    if i < |t| && t[i] <= 32 { BlankLater(c, n, t, i + 1); }
  }

  lemma SpaceLater(c: seq<byte>, n: nat, t: seq<byte>, i: nat)
    requires Tail(c, n, t) && i <= |t|
    ensures SkipWhitespace(c, n + i) == n + SkipWhitespace(t, i)
  {
    BlankLater(c, n, t, i);
  }

  lemma SeesLater(c: seq<byte>, n: nat, t: seq<byte>, i: nat, b: byte)
    requires Tail(c, n, t)
    ensures Sees(c, n + i, b) == Sees(t, i, b)
  {
  }

  lemma CanReadLater(c: seq<byte>, n: nat, t: seq<byte>, i: nat, text: seq<byte>)
    requires Tail(c, n, t)
    ensures CanRead(c, n + i, text) == CanRead(t, i, text)
  {
    if i + |text| <= |t| { assert c[n + i..n + i + |text|] == t[i..i + |text|]; }
  }

  lemma {:induction false} RunLater(c: seq<byte>, n: nat, t: seq<byte>, i: nat, limit: nat)
    requires Tail(c, n, t) && i <= |t|
    ensures NumberRun(c, n + i, limit) == NumberRun(t, i, limit)
    decreases |t| - i
  {
    if i < |t| && limit > 0 { RunLater(c, n, t, i + 1, limit - 1); }
  }

  lemma NumberLater(c: seq<byte>, n: nat, t: seq<byte>, i: nat)
    requires Tail(c, n, t) && i <= |t|
    ensures ParseNumber(c, n + i) == Later(ParseNumber(t, i), n)
  {
    RunLater(c, n, t, i, 63);
    assert NumberText(c, n + i) == NumberText(t, i);
  }

  lemma {:induction false} QuoteLater(c: seq<byte>, n: nat, t: seq<byte>, i: nat)
    requires Tail(c, n, t) && i <= |t|
    ensures ClosingQuote(c, n + i) == Later(ClosingQuote(t, i), n)
    decreases |t| - i
  {
    if i < |t| && t[i] != QUOTE {
      if t[i] == BACKSLASH {
        if i + 1 < |t| { QuoteLater(c, n, t, i + 2); }
      } else {
        QuoteLater(c, n, t, i + 1);
      }
    }
  }

  lemma Hex4Later(c: seq<byte>, n: nat, t: seq<byte>, i: nat)
    requires Tail(c, n, t) && i + 4 <= |t|
    ensures Hex4(c, n + i) == Hex4(t, i)
  {
    var c, n := c, n + i;
    assert c[n] == t[i] && c[n + 1] == t[i + 1] && c[n + 2] == t[i + 2] && c[n + 3] == t[i + 3];
  }

  lemma Utf16Later(c: seq<byte>, n: nat, t: seq<byte>, i: nat, end: nat)
    requires Tail(c, n, t) && i <= end <= |t|
    ensures Utf16At(c, n + i, n + end) == Utf16At(t, i, end)
  {
    if end - i >= 6 { Hex4Later(c, n, t, i + 2); }
    if end - i >= 12 {
      assert c[n + i + 6] == t[i + 6] && c[n + i + 7] == t[i + 7];
      Hex4Later(c, n, t, i + 8);
    }
  }

  lemma UnitLater(c: seq<byte>, n: nat, t: seq<byte>, i: nat, end: nat)
    requires Tail(c, n, t) && i < end < |t|
    ensures Unit(c, n + i, n + end) == Unit(t, i, end)
  {
    assert c[n + i] == t[i] && c[n + i + 1] == t[i + 1];
    Utf16Later(c, n, t, i, end);
  }

  lemma {:induction false} UnescapeLater(c: seq<byte>, n: nat, t: seq<byte>, i: nat, end: nat, acc: seq<byte>)
    requires Tail(c, n, t) && i <= end + 1 && end < |t|
    ensures Unescape(c, n + i, n + end, acc) == Later(Unescape(t, i, end, acc), n)
    decreases end + 1 - i
  {
    if i < end {
      UnitLater(c, n, t, i, end);
      var u := Unit(t, i, end);
      if u.Ok? { UnescapeLater(c, n, t, i + u.off, end, acc + u.value); }
    }
  }

  lemma StringLater(c: seq<byte>, n: nat, t: seq<byte>, i: nat)
    requires Tail(c, n, t) && i <= |t|
    ensures ParseString(c, n + i) == Later(ParseString(t, i), n)
  {
    SeesLater(c, n, t, i, QUOTE);
    if Sees(t, i, QUOTE) {
      QuoteLater(c, n, t, i + 1);
      var end := ClosingQuote(t, i + 1);
      if end.Ok? { UnescapeLater(c, n, t, i + 1, end.off, []); }
    }
  }

  // ---- texts ----

  /** From `m` and from `n` on two buffers are the same text `t`. */
  ghost predicate Alike(c: seq<byte>, m: nat, d: seq<byte>, n: nat, t: seq<byte>) {
    Tail(c, m, t) && Tail(d, n, t)
  }

  lemma StringMoves(s: seq<byte>, c: seq<byte>, m: nat, d: seq<byte>, n: nat, t: seq<byte>, i: nat, j: nat)
    requires Alike(c, m, d, n, t) && i <= |t| && StringAt(s, c, m + i, m + j, false)
    ensures i < j <= |t| && StringAt(s, d, n + i, n + j, false)
  {
    StringLater(c, m, t, i);
    StringLater(d, n, t, i);
  }

  lemma NumberMoves(x: Decimal, c: seq<byte>, m: nat, d: seq<byte>, n: nat, t: seq<byte>, i: nat, j: nat)
    requires Alike(c, m, d, n, t) && i <= |t| && ReadsNumber(x, c, m + i, m + j)
    ensures ReadsNumber(x, d, n + i, n + j)
  {
    NumberLater(c, m, t, i);
    NumberLater(d, n, t, i);
  }

  /** What stands behind blanks stands there in both buffers. */
  lemma BlankMoves(c: seq<byte>, m: nat, d: seq<byte>, n: nat, t: seq<byte>, i: nat) returns (q: nat)
    requires Alike(c, m, d, n, t) && i <= |t|
    ensures i <= q <= |t| && SkipBlank(c, m + i) == m + q && SkipBlank(d, n + i) == n + q
    ensures |c| == m + |t| && |d| == n + |t| && (q < |t| ==> c[m + q] == d[n + q])
  {
    q := SkipBlank(t, i);
    BlankLater(c, m, t, i);
    BlankLater(d, n, t, i);
    assert q < |t| ==> c[m + q] == t[q];
  }

  lemma ByteMoves(c: seq<byte>, m: nat, d: seq<byte>, n: nat, t: seq<byte>, i: nat)
    requires Alike(c, m, d, n, t) && m + i < |c|
    ensures i < |t| && n + i < |d| && c[m + i] == d[n + i]
  {
    assert c[m + i] == t[i];
  }

  lemma LeafMoves(v: Json, c: seq<byte>, m: nat, d: seq<byte>, n: nat, t: seq<byte>, i: nat, j: nat)
    requires IsLeaf(v) && Alike(c, m, d, n, t) && i <= |t| && SpellsNode(v, c, m + i, m + j, false)
    ensures SpellsNode(v, d, n + i, n + j, false)
  {
    match v
    case Null => WordMoves(c, m, d, n, t, i, NULL_TEXT);
    case False => WordMoves(c, m, d, n, t, i, FALSE_TEXT);
    case True => WordMoves(c, m, d, n, t, i, TRUE_TEXT);
    case Number(x) => NumberMoves(x, c, m, d, n, t, i, j);
    case String(s) => StringMoves(s, c, m, d, n, t, i, j);
  }

  lemma WordMoves(c: seq<byte>, m: nat, d: seq<byte>, n: nat, t: seq<byte>, i: nat, text: seq<byte>)
    requires Alike(c, m, d, n, t) && i <= |t| && CanRead(c, m + i, text)
    ensures CanRead(d, n + i, text)
  {
    CanReadLater(c, m, t, i, text);
    CanReadLater(d, n, t, i, text);
  }

  /** A value's text ends behind its start. */
  lemma EndsLater(v: Json, c: seq<byte>, i: nat, j: nat)
    requires Spells(v, c, i, j, false)
    ensures i < j <= |c|
  {
    ValueBack(v, c, i, j, Depth(v), false);
  }

  lemma MemberEndsLater(x: Member, c: seq<byte>, i: nat, j: nat)
    requires SpellsMember(x, c, i, j, false)
    ensures i < j <= |c|
  {
    var e, w := UnpackMember(x, c, i, j, false);
    EndsLater(x.value, c, w, j);
  }

  /** A text of a value is one wherever it stands. */
  lemma {:induction false} ValueMoves(v: Json, c: seq<byte>, m: nat, d: seq<byte>, n: nat, t: seq<byte>, i: nat, j: nat)
    requires Alike(c, m, d, n, t) && i <= |t| && Spells(v, c, m + i, m + j, false)
    ensures Spells(v, d, n + i, n + j, false)
    decreases v, 1
  {
    assert SpellsNode(v, c, m + i, m + j, false);
    if v.Array? {
      ArrayMoves(v.items, c, m, d, n, t, i, j);
    } else if v.Object? {
      ObjectMoves(v.members, c, m, d, n, t, i, j);
    } else {
      LeafMoves(v, c, m, d, n, t, i, j);
      assert SpellsNode(v, d, n + i, n + j, false);
    }
  }

  lemma {:induction false} ArrayMoves(items: seq<Json>, c: seq<byte>, m: nat, d: seq<byte>, n: nat, t: seq<byte>,
                                      i: nat, j: nat)
    requires Alike(c, m, d, n, t) && i <= |t| && SpellsNode(Array(items), c, m + i, m + j, false)
    ensures Spells(Array(items), d, n + i, n + j, false)
    decreases items, 3
  {
    ByteMoves(c, m, d, n, t, i);
    var q := BlankMoves(c, m, d, n, t, i + 1);
    if items == [] {
      EmptyArray(d, n + i, n + j);
    } else {
      ItemsMove(items, c, m, d, n, t, q, j);
      PackArray(d, n + i, items, n + j);
    }
  }

  lemma {:induction false} ItemsMove(items: seq<Json>, c: seq<byte>, m: nat, d: seq<byte>, n: nat, t: seq<byte>, i: nat,
                                     j: nat)
    requires Alike(c, m, d, n, t) && i <= |t| && items != [] && SpellsItems(items, c, m + i, m + j, false)
    ensures SpellsItems(items, d, n + i, n + j, false)
    decreases items, 1
  {
    var e: nat :| Spells(items[0], c, m + i, e, false) && AfterItem(items[1..], c, e, m + j, false);
    EndsLater(items[0], c, m + i, e);
    ValueMoves(items[0], c, m, d, n, t, i, e - m);
    AfterItemMoves(items[1..], c, m, d, n, t, e - m, j);
  }

  lemma {:induction false} AfterItemMoves(items: seq<Json>, c: seq<byte>, m: nat, d: seq<byte>, n: nat, t: seq<byte>,
                                          e: nat, j: nat)
    requires Alike(c, m, d, n, t) && e <= |t| && AfterItem(items, c, m + e, m + j, false)
    ensures AfterItem(items, d, n + e, n + j, false)
    decreases items, 2
  {
    var q := BlankMoves(c, m, d, n, t, e);
    if items != [] {
      var p := BlankMoves(c, m, d, n, t, q + 1);
      ItemsMove(items, c, m, d, n, t, p, j);
    }
  }

  lemma {:induction false} ObjectMoves(members: seq<Member>, c: seq<byte>, m: nat, d: seq<byte>, n: nat, t: seq<byte>,
                                       i: nat, j: nat)
    requires Alike(c, m, d, n, t) && i <= |t| && SpellsNode(Object(members), c, m + i, m + j, false)
    ensures Spells(Object(members), d, n + i, n + j, false)
    decreases members, 3
  {
    ByteMoves(c, m, d, n, t, i);
    var q := BlankMoves(c, m, d, n, t, i + 1);
    if members == [] {
      EmptyObject(d, n + i, n + j);
    } else {
      MembersMove(members, c, m, d, n, t, q, j);
      PackMembersIn(d, n + i, members, n + j);
    }
  }

  lemma {:induction false} MembersMove(members: seq<Member>, c: seq<byte>, m: nat, d: seq<byte>, n: nat, t: seq<byte>,
                                       i: nat, j: nat)
    requires Alike(c, m, d, n, t) && i <= |t| && members != [] && SpellsMembers(members, c, m + i, m + j, false)
    ensures SpellsMembers(members, d, n + i, n + j, false)
    decreases members, 1
  {
    var e: nat :| SpellsMember(members[0], c, m + i, e, false) && AfterMember(members[1..], c, e, m + j, false);
    MemberEndsLater(members[0], c, m + i, e);
    MemberMoves(members[0], c, m, d, n, t, i, e - m);
    AfterMemberMoves(members[1..], c, m, d, n, t, e - m, j);
  }

  lemma {:induction false} AfterMemberMoves(members: seq<Member>, c: seq<byte>, m: nat, d: seq<byte>, n: nat,
                                            t: seq<byte>, e: nat, j: nat)
    requires Alike(c, m, d, n, t) && e <= |t| && AfterMember(members, c, m + e, m + j, false)
    ensures AfterMember(members, d, n + e, n + j, false)
    decreases members, 2
  {
    var q := BlankMoves(c, m, d, n, t, e);
    if members != [] {
      var p := BlankMoves(c, m, d, n, t, q + 1);
      MembersMove(members, c, m, d, n, t, p, j);
    }
  }

  lemma {:induction false} MemberMoves(x: Member, c: seq<byte>, m: nat, d: seq<byte>, n: nat, t: seq<byte>, i: nat,
                                       j: nat)
    requires Alike(c, m, d, n, t) && i <= |t| && SpellsMember(x, c, m + i, m + j, false)
    ensures SpellsMember(x, d, n + i, n + j, false)
    decreases x, 0
  {
    assert SpellsPair(x, c, m + i, m + j, false);
    var e: nat :| StringAt(x.key, c, m + i, e, false) && AfterKey(x, c, e, m + j, false);
    KeyEndsLater(x.key, c, m + i, e);
    StringMoves(x.key, c, m, d, n, t, i, e - m);
    AfterKeyMoves(x, c, m, d, n, t, e - m, j);
    assert SpellsPair(x, d, n + i, n + j, false);
  }

  lemma {:induction false} AfterKeyMoves(x: Member, c: seq<byte>, m: nat, d: seq<byte>, n: nat, t: seq<byte>, e: nat,
                                         j: nat)
    requires Alike(c, m, d, n, t) && e <= |t| && AfterKey(x, c, m + e, m + j, false)
    ensures AfterKey(x, d, n + e, n + j, false)
    decreases x, 0, 0
  {
    var k := BlankMoves(c, m, d, n, t, e);
    var q := BlankMoves(c, m, d, n, t, k + 1);
    ValueMoves(x.value, c, m, d, n, t, q, j);
  }

  lemma KeyEndsLater(s: seq<byte>, c: seq<byte>, i: nat, j: nat)
    requires StringAt(s, c, i, j, false)
    ensures i < j <= |c|
  {
  }

  /** So the parser makes the same of it. */
  lemma ParseMoves(c: seq<byte>, m: nat, d: seq<byte>, n: nat, t: seq<byte>, i: nat, v: Json, j: nat, left: nat)
    requires Alike(c, m, d, n, t) && i <= |t| && ParseValue(c, m + i, left) == Ok(v, m + j)
    ensures ParseValue(d, n + i, left) == Ok(v, n + j)
  {
    AcceptedIff(v, c, m + i, m + j, left);
    ValueMoves(v, c, m, d, n, t, i, j);
    AcceptedIff(v, d, n + i, n + j, left);
  }

  lemma ParsedLater(c: seq<byte>, n: nat, t: seq<byte>, i: nat, left: nat)
    requires Tail(c, n, t) && i <= |t|
    ensures ParseValue(c, n + i, left) == Later(ParseValue(t, i, left), n)
  {
    var r, r' := ParseValue(t, i, left), ParseValue(c, n + i, left);
    assert Tail(t, 0, t);
    if r.Ok? {
      ParseMoves(t, 0, c, n, t, i, r.value, r.off, left);
    } else if r'.Ok? {
      ParseMoves(c, n, t, 0, t, i, r'.value, r'.off - n, left);
    }
  }

  // ---- the byte order mark ----

  predicate Marked(c: seq<byte>) {
    |c| >= 5 && c[0] == 0xEF && c[1] == 0xBB && c[2] == 0xBF
  }

  lemma MarkedIff(c: seq<byte>)
    ensures HasBom(c) <==> Marked(c)
  {
    if |c| > 4 { assert c[..3] == [c[0], c[1], c[2]]; }
  }

  /** What is left to do behind the value. */
  function Finish(c: seq<byte>, r: Parsed<Json>, terminated: bool): Parsed<Json>
    requires r.Ok? ==> r.off <= |c|
  {
    if r.Fail? || !terminated then r
    else var q := SkipWhitespace(c, r.off); if Sees(c, q, NUL) then Ok(r.value, q) else Fail
  }

  lemma FinishLater(c: seq<byte>, n: nat, t: seq<byte>, r: Parsed<Json>, terminated: bool)
    requires Tail(c, n, t) && (r.Ok? ==> r.off <= |t|)
    ensures Finish(c, Later(r, n), terminated) == Later(Finish(t, r, terminated), n)
  {
    if r.Ok? {
      SpaceLater(c, n, t, r.off);
      SeesLater(c, n, t, SkipWhitespace(t, r.off), NUL);
    }
  }

  lemma ParseFrom(c: seq<byte>, start: nat, terminated: bool, limit: nat)
    requires c != [] && start == if HasBom(c) then 3 else 0
    ensures Parse(c, terminated, limit) == Finish(c, ParseValue(c, SkipWhitespace(c, start), limit), terminated)
  {
  }

  lemma ParsedBehindMark(c: seq<byte>, t: seq<byte>, terminated: bool, limit: nat)
    requires Tail(c, 3, t) && t != [] && HasBom(c) && !HasBom(t)
    ensures Parse(c, terminated, limit) == Later(Parse(t, terminated, limit), 3)
  {
    var i := SkipWhitespace(t, 0);
    ParseFrom(c, 3, terminated, limit);
    ParseFrom(t, 0, terminated, limit);
    SpaceLater(c, 3, t, 0);
    ParsedLater(c, 3, t, i, limit);
    FinishLater(c, 3, t, ParseValue(t, i, limit), terminated);
  }

  /** What follows a byte order mark is parsed as if the mark were not there. */
  lemma MarkIsSkipped(t: seq<byte>, terminated: bool, limit: nat)
    requires |t| >= 2 && !Marked(t)
    ensures Parse([0xEF, 0xBB, 0xBF] + t, terminated, limit) == Later(Parse(t, terminated, limit), 3)
  {
    var c := [0xEF, 0xBB, 0xBF] + t;
    MarkedIff(c);
    MarkedIff(t);
    ParsedBehindMark(c, t, terminated, limit);
  }

  /** Any other buffer that does not start with an ASCII byte is refused, and so is a mark with one byte behind it. */
  lemma OthersRefused(c: seq<byte>, terminated: bool, limit: nat)
    requires c != [] && c[0] >= 0x80 && !Marked(c)
    ensures Parse(c, terminated, limit).Fail?
  {
    MarkedIff(c);
    assert SkipBlank(c, 0) == 0;
    NotAWord(c, NULL_TEXT);
    NotAWord(c, FALSE_TEXT);
    NotAWord(c, TRUE_TEXT);
    assert ParseToken(c, 0, limit).Fail?;
  }

  lemma NotAWord(c: seq<byte>, text: seq<byte>)
    requires c != [] && text != [] && c[0] != text[0]
    ensures !CanRead(c, 0, text)
  {
    if |text| <= |c| { assert c[0..|text|][0] == c[0]; }
  }

  // ---- the terminator ----

  /** A terminator is found behind a value if and only if nothing but blanks follows and the last byte is a NUL. */
  lemma {:induction false} TerminatedIff(c: seq<byte>, j: nat)
    requires j <= |c|
    ensures Sees(c, SkipWhitespace(c, j), NUL) <==>
            j < |c| && c[|c| - 1] == 0 && forall k :: j <= k < |c| ==> c[k] <= 32
  {
    BlankUpTo(c, j);
  }

  lemma {:induction false} BlankUpTo(c: seq<byte>, j: nat)
    requires j <= |c|
    ensures forall k :: j <= k < SkipBlank(c, j) ==> c[k] <= 32
    decreases |c| - j
  {
    if j < |c| && c[j] <= 32 { BlankUpTo(c, j + 1); }
  }

  // ---- the nesting limit ----

  /** Containers around a null, arrays and objects as told. */
  function Nest(arrays: seq<bool>): Json {
    if arrays == [] then Null
    else var v := Nest(arrays[1..]); if arrays[0] then Array([v]) else Object([Member([], v)])
  }

  lemma {:induction false} NestIs(arrays: seq<bool>)
    ensures Printable(Nest(arrays)) && Depth(Nest(arrays)) == |arrays|
  {
    if arrays != [] {
      NestIs(arrays[1..]);
      var v := Nest(arrays[1..]);
      var m := Member([], v);
      assert [v][0] == v && [v][1..] == [] && [m][0] == m && [m][1..] == [];
      assert DepthAll([v]) == Depth(v) && DepthMembers([m]) == Depth(v);
    }
  }

  /** Nested texts parse up to a thousand levels and no deeper. */
  lemma ThousandLevels(arrays: seq<bool>, fmt: bool)
    ensures Printable(Nest(arrays))
    ensures Parse(Render(Nest(arrays), 0, fmt) + [NUL], true, NESTING_LIMIT).Ok? <==> |arrays| <= 1000
  {
    NestIs(arrays);
    RoundTrip(Nest(arrays), fmt, true, NESTING_LIMIT);
  }
}
