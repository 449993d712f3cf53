/**
 How the printers lay a text out: which blanks they write and where, and which of the spellings that RFC 8259 allows
 they choose. Stated on the bytes of the text alone, without the tree it comes from.
 */
module JsonLayout {
  import opened Bytes
  import opened Unicode
  import opened JsonText
  import opened JsonParse
  import opened JsonString
  import opened JsonTokens

  // ---- a text without its blanks ----

  /** Drops every byte up to 32 that is not inside a string literal. */
  function Strip(t: seq<byte>): seq<byte> {
    if t == [] then []
    else if t[0] == 0x22 then [0x22] + StripLiteral(t[1..])
    else (if t[0] <= 32 then [] else [t[0]]) + Strip(t[1..])
  }

  /** The same from inside a literal. */
  function StripLiteral(t: seq<byte>): seq<byte> {
    if t == [] then []
    else if t[0] == 0x22 then [0x22] + Strip(t[1..])
    else if t[0] == 0x5C && |t| > 1 then [t[0], t[1]] + StripLiteral(t[2..])
    else [t[0]] + StripLiteral(t[1..])
  }

  lemma {:induction false} StripShortens(t: seq<byte>)
    ensures |Strip(t)| <= |t| && |StripLiteral(t)| <= |t|
  {
    if t != [] {
      StripShortens(t[1..]);
      if |t| > 1 { StripShortens(t[2..]); }
    }
  }

  /** Neither blanks nor quotes. */
  ghost predicate Solid(w: seq<byte>) {
    forall k :: 0 <= k < |w| ==> w[k] > 32 && w[k] != 0x22
  }

  ghost predicate AllBlanks(w: seq<byte>) {
    forall k :: 0 <= k < |w| ==> w[k] <= 32
  }

  lemma {:induction false} StripSolid(w: seq<byte>, rest: seq<byte>)
    requires Solid(w)
    ensures Strip(w + rest) == w + Strip(rest)
  {
    if w == [] {
      assert [] + rest == rest && [] + Strip(rest) == Strip(rest);
    } else {
      StripSolid(w[1..], rest);
      assert (w + rest)[1..] == w[1..] + rest;
    }
  }

  lemma {:induction false} StripBlanks(w: seq<byte>, rest: seq<byte>)
    requires AllBlanks(w)
    ensures Strip(w + rest) == Strip(rest)
  {
    if w == [] {
      assert [] + rest == rest;
    } else {
      StripBlanks(w[1..], rest);
      assert (w + rest)[1..] == w[1..] + rest;
    }
  }

  lemma Join2(a: seq<byte>, b: seq<byte>, rest: seq<byte>)
    ensures a + b + rest == a + (b + rest)
  {
  }

  lemma Join3(a: seq<byte>, b: seq<byte>, c: seq<byte>, rest: seq<byte>)
    ensures a + b + c + rest == a + (b + (c + rest))
  {
  }

  lemma Join4(a: seq<byte>, b: seq<byte>, c: seq<byte>, d: seq<byte>, rest: seq<byte>)
    ensures a + b + c + d + rest == a + (b + (c + (d + rest)))
  {
  }

  lemma {:induction false} StripEscape(s: seq<byte>, rest: seq<byte>)
    ensures StripLiteral(Escape(s) + rest) == Escape(s) + StripLiteral(rest)
  {
    if s == [] {
      assert [] + rest == rest && [] + StripLiteral(rest) == StripLiteral(rest);
    } else {
      var e, more := EscapeByte(s[0]), Escape(s[1..]);
      StripEscape(s[1..], rest);
      StripUnit(s[0], more + rest);
      Join2(e, more, rest);
      Join2(e, more, StripLiteral(rest));
    }
  }

  lemma StripUnit(b: byte, rest: seq<byte>)
    ensures StripLiteral(EscapeByte(b) + rest) == EscapeByte(b) + StripLiteral(rest)
  {
    var e := EscapeByte(b);
    if |e| == 1 {
      assert (e + rest)[1..] == rest;
    } else {
      assert (e + rest)[2..] == e[2..] + rest;
      if |e| == 2 {
        assert e[2..] + rest == rest;
      } else {
        StripDigits(e[2..], rest);
        assert e == [e[0], e[1]] + e[2..];
      }
    }
  }

  lemma {:induction false} StripDigits(w: seq<byte>, rest: seq<byte>)
    requires forall k :: 0 <= k < |w| ==> w[k] != 0x22 && w[k] != 0x5C
    ensures StripLiteral(w + rest) == w + StripLiteral(rest)
  {
    if w == [] {
      assert [] + rest == rest && [] + StripLiteral(rest) == StripLiteral(rest);
    } else {
      StripDigits(w[1..], rest);
      assert (w + rest)[1..] == w[1..] + rest;
    }
  }

  lemma StringNode(s: seq<byte>, rest: seq<byte>)
    ensures StringText(s) + rest == [QUOTE] + (Escape(s) + ([QUOTE] + rest))
  {
    Join3([QUOTE], Escape(s), [QUOTE], rest);
  }

  lemma StripString(s: seq<byte>, rest: seq<byte>)
    ensures Strip(StringText(s) + rest) == StringText(s) + Strip(rest)
  {
    var tail := [QUOTE] + rest;
    var inner := Escape(s) + tail;
    StringNode(s, rest);
    StripEscape(s, tail);
    assert ([QUOTE] + inner)[1..] == inner && tail[1..] == rest;
    StringNode(s, Strip(rest));
  }

  // ---- both printers write the same tokens, and the unformatted one no blanks ----

  lemma SolidInt(n: int)
    ensures Solid(IntText(n))
  {
  }

  lemma LeafStrips(v: Json, depth: nat, fmt: bool, rest: seq<byte>)
    requires Printable(v) && !v.Array? && !v.Object?
    ensures Strip(RenderNode(v, depth, fmt) + rest) == RenderNode(v, depth, false) + Strip(rest)
  {
    match v
    case Null => StripSolid(NULL_TEXT, rest);
    case False => StripSolid(FALSE_TEXT, rest);
    case True => StripSolid(TRUE_TEXT, rest);
    case Number(d) =>
      SolidInt(d.mantissa);
      StripSolid(IntText(d.mantissa), rest);
    case String(s) => StripString(s, rest);
  }

  /** Stripped, what either printer writes is what the unformatted one writes, whatever follows. */
  lemma {:induction false} RenderStrips(v: Json, depth: nat, fmt: bool, rest: seq<byte>)
    requires Printable(v)
    ensures Strip(Render(v, depth, fmt) + rest) == Render(v, depth, false) + Strip(rest)
    decreases v, 1
  {
    NodeOf(v, depth, fmt);
    NodeOf(v, depth, false);
    if v.Array? {
      ArrayStrips(v.items, depth, fmt, rest);
    } else if v.Object? {
      ObjectStrips(v.members, depth, fmt, rest);
    } else {
      LeafStrips(v, depth, fmt, rest);
    }
  }

  lemma NodeOf(v: Json, depth: nat, fmt: bool)
    requires Printable(v)
    ensures Render(v, depth, fmt) == RenderNode(v, depth, fmt)
  {
  }

  lemma ArrayNode(items: seq<Json>, depth: nat, fmt: bool, rest: seq<byte>)
    requires AllPrintable(items)
    ensures RenderNode(Array(items), depth, fmt) + rest ==
            [OPEN_BRACKET] + (RenderItems(items, depth + 1, fmt) + ([CLOSE_BRACKET] + rest))
  {
    Join3([OPEN_BRACKET], RenderItems(items, depth + 1, fmt), [CLOSE_BRACKET], rest);
  }

  lemma {:induction false} ArrayStrips(items: seq<Json>, depth: nat, fmt: bool, rest: seq<byte>)
    requires AllPrintable(items)
    ensures Strip(RenderNode(Array(items), depth, fmt) + rest) == RenderNode(Array(items), depth, false) + Strip(rest)
    decreases items, 3
  {
    var tail := [CLOSE_BRACKET] + rest;
    ArrayNode(items, depth, fmt, rest);
    StripSolid([OPEN_BRACKET], RenderItems(items, depth + 1, fmt) + tail);
    ItemsStrip(items, depth + 1, fmt, tail);
    StripSolid([CLOSE_BRACKET], rest);
    ArrayNode(items, depth, false, Strip(rest));
  }

  lemma {:induction false} ItemsStrip(items: seq<Json>, depth: nat, fmt: bool, rest: seq<byte>)
    requires AllPrintable(items)
    ensures Strip(RenderItems(items, depth, fmt) + rest) == RenderItems(items, depth, false) + Strip(rest)
    decreases items, 2
  {
    if items == [] {
      assert [] + rest == rest && [] + Strip(rest) == Strip(rest);
    } else if |items| == 1 {
      RenderStrips(items[0], depth, fmt, rest);
    } else {
      var tail := RenderItems(items[1..], depth, fmt) + rest;
      ItemsNode(items, depth, fmt, rest);
      RenderStrips(items[0], depth, fmt, Separator(fmt) + tail);
      SeparatorStrips(fmt, tail);
      ItemsStrip(items[1..], depth, fmt, rest);
      ItemsNode(items, depth, false, Strip(rest));
    }
  }

  lemma ItemsNode(items: seq<Json>, depth: nat, fmt: bool, rest: seq<byte>)
    requires AllPrintable(items) && |items| > 1
    ensures RenderItems(items, depth, fmt) + rest ==
            Render(items[0], depth, fmt) + (Separator(fmt) + (RenderItems(items[1..], depth, fmt) + rest))
  {
    Join3(Render(items[0], depth, fmt), Separator(fmt), RenderItems(items[1..], depth, fmt), rest);
  }

  lemma SeparatorStrips(fmt: bool, rest: seq<byte>)
    ensures Strip(Separator(fmt) + rest) == Separator(false) + Strip(rest)
  {
    if fmt {
      assert Separator(fmt) + rest == [COMMA] + ([0x20] + rest);
      StripBlanks([0x20], rest);
      StripSolid([COMMA], [0x20] + rest);
    } else {
      StripSolid([COMMA], rest);
    }
  }

  lemma ObjectNode(members: seq<Member>, depth: nat, fmt: bool, rest: seq<byte>)
    requires AllMembersPrintable(members)
    ensures RenderNode(Object(members), depth, fmt) + rest ==
            ObjectStart(fmt) + (RenderMembers(members, depth + 1, fmt) + (Indent(depth, fmt) + ([CLOSE_BRACE] + rest)))
  {
    Join4(ObjectStart(fmt), RenderMembers(members, depth + 1, fmt), Indent(depth, fmt), [CLOSE_BRACE], rest);
  }

  lemma {:induction false} ObjectStrips(members: seq<Member>, depth: nat, fmt: bool, rest: seq<byte>)
    requires AllMembersPrintable(members)
    ensures Strip(RenderNode(Object(members), depth, fmt) + rest) ==
            RenderNode(Object(members), depth, false) + Strip(rest)
    decreases members, 3
  {
    var tail := Indent(depth, fmt) + ([CLOSE_BRACE] + rest);
    ObjectNode(members, depth, fmt, rest);
    StartStrips(fmt, RenderMembers(members, depth + 1, fmt) + tail);
    MembersStrip(members, depth + 1, fmt, tail);
    IndentStrips(depth, fmt, [CLOSE_BRACE] + rest);
    StripSolid([CLOSE_BRACE], rest);
    ObjectNode(members, depth, false, Strip(rest));
  }

  lemma StartStrips(fmt: bool, rest: seq<byte>)
    ensures Strip(ObjectStart(fmt) + rest) == ObjectStart(false) + Strip(rest)
  {
    if fmt {
      assert ObjectStart(fmt) + rest == [OPEN_BRACE] + ([NEWLINE] + rest);
      StripBlanks([NEWLINE], rest);
      StripSolid([OPEN_BRACE], [NEWLINE] + rest);
    } else {
      StripSolid([OPEN_BRACE], rest);
    }
  }

  lemma {:induction false} TabsBlank(n: nat)
    ensures AllBlanks(Tabs(n))
  {
    if n > 0 { TabsBlank(n - 1); }
  }

  lemma IndentStrips(depth: nat, fmt: bool, rest: seq<byte>)
    ensures Strip(Indent(depth, fmt) + rest) == Indent(depth, false) + Strip(rest)
  {
    TabsBlank(depth);
    StripBlanks(Indent(depth, fmt), rest);
    assert [] + Strip(rest) == Strip(rest);
  }

  lemma KeyEndStrips(fmt: bool, rest: seq<byte>)
    ensures Strip(KeyEnd(fmt) + rest) == KeyEnd(false) + Strip(rest)
  {
    if fmt {
      assert KeyEnd(fmt) + rest == [COLON] + ([TAB] + rest);
      StripBlanks([TAB], rest);
      StripSolid([COLON], [TAB] + rest);
    } else {
      StripSolid([COLON], rest);
    }
  }

  lemma MemberEndStrips(last: bool, fmt: bool, rest: seq<byte>)
    ensures Strip(MemberEnd(last, fmt) + rest) == MemberEnd(last, false) + Strip(rest)
  {
    var comma, line := if last then [] else [COMMA], if fmt then [NEWLINE] else [];
    assert MemberEnd(last, fmt) + rest == comma + (line + rest) && MemberEnd(last, false) == comma;
    StripBlanks(line, rest);
    StripSolid(comma, line + rest);
  }

  lemma MemberNode(m: Member, depth: nat, fmt: bool, rest: seq<byte>)
    requires NUL !in m.key && Printable(m.value)
    ensures RenderMember(m, depth, fmt) + rest ==
            Indent(depth, fmt) + (StringText(m.key) + (KeyEnd(fmt) + (Render(m.value, depth, fmt) + rest)))
  {
    Join4(Indent(depth, fmt), StringText(m.key), KeyEnd(fmt), Render(m.value, depth, fmt), rest);
  }

  lemma {:induction false} MemberStrips(m: Member, depth: nat, fmt: bool, rest: seq<byte>)
    requires NUL !in m.key && Printable(m.value)
    ensures Strip(RenderMember(m, depth, fmt) + rest) == RenderMember(m, depth, false) + Strip(rest)
    decreases m, 0
  {
    var value := Render(m.value, depth, fmt) + rest;
    var colon := KeyEnd(fmt) + value;
    MemberNode(m, depth, fmt, rest);
    IndentStrips(depth, fmt, StringText(m.key) + colon);
    StripString(m.key, colon);
    KeyEndStrips(fmt, value);
    RenderStrips(m.value, depth, fmt, rest);
    MemberNode(m, depth, false, Strip(rest));
  }

  lemma MembersNode(members: seq<Member>, depth: nat, fmt: bool, rest: seq<byte>)
    requires AllMembersPrintable(members) && members != []
    ensures RenderMembers(members, depth, fmt) + rest ==
            RenderMember(members[0], depth, fmt) +
              (MemberEnd(|members| == 1, fmt) + (RenderMembers(members[1..], depth, fmt) + rest))
  {
    Join3(RenderMember(members[0], depth, fmt), MemberEnd(|members| == 1, fmt),
          RenderMembers(members[1..], depth, fmt), rest);
  }

  lemma {:induction false} MembersStrip(members: seq<Member>, depth: nat, fmt: bool, rest: seq<byte>)
    requires AllMembersPrintable(members)
    ensures Strip(RenderMembers(members, depth, fmt) + rest) == RenderMembers(members, depth, false) + Strip(rest)
    decreases members, 2
  {
    if members == [] {
      assert [] + rest == rest && [] + Strip(rest) == Strip(rest);
    } else {
      var last, tail := |members| == 1, RenderMembers(members[1..], depth, fmt) + rest;
      MembersNode(members, depth, fmt, rest);
      MemberStrips(members[0], depth, fmt, MemberEnd(last, fmt) + tail);
      MemberEndStrips(last, fmt, tail);
      MembersStrip(members[1..], depth, fmt, rest);
      MembersNode(members, depth, false, Strip(rest));
    }
  }

  /**
   Dropping the blanks outside string literals from the formatted text gives the unformatted one, which has none, so
   that no text with the same tokens is shorter.
   */
  lemma UnformattedIsStripped(v: Json, depth: nat, t: seq<byte>)
    requires Printable(v)
    ensures Strip(Render(v, depth, true)) == Render(v, depth, false) == Strip(Render(v, depth, false))
    ensures Strip(t) == Render(v, depth, false) ==> |t| >= |Render(v, depth, false)|
  {
    RenderStrips(v, depth, true, []);
    RenderStrips(v, depth, false, []);
    var a, b := Render(v, depth, true), Render(v, depth, false);
    assert a + [] == a && b + [] == b;
    StripShortens(t);
  }

  // ---- the formatted layout ----

  ghost predicate InObject(open: seq<bool>) {
    open != [] && open[0]
  }

  /**
   Lays out a text without blanks. `open` says of the containers open around it, the innermost first, which are
   objects. Behind a name's colon comes a tab and between elements a space; every member starts a line, behind as
   many tabs as containers are open, and so does a closing brace, behind one less.
   */
  ghost function LayOut(t: seq<byte>, open: seq<bool>): seq<byte>
    decreases |t|
  {
    if t == [] then []
    else
      var b, rest := t[0], t[1..];
      if b == 0x22 then [b] + LayOutLiteral(rest, open)
      else if b == 0x7B && rest != [] && rest[0] == 0x7D then
        [0x7B, 0x0A] + Tabs(|open|) + [0x7D] + LayOut(rest[1..], open)
      else if b == 0x7B then [0x7B, 0x0A] + Tabs(|open| + 1) + LayOut(rest, [true] + open)
      else if b == 0x5B then [0x5B] + LayOut(rest, [false] + open)
      else if b == 0x7D && open != [] then [0x0A] + Tabs(|open| - 1) + [0x7D] + LayOut(rest, open[1..])
      else if b == 0x5D && open != [] then [0x5D] + LayOut(rest, open[1..])
      else if b == 0x3A then [0x3A, 0x09] + LayOut(rest, open)
      else if b == 0x2C && InObject(open) then [0x2C, 0x0A] + Tabs(|open|) + LayOut(rest, open)
      else if b == 0x2C then [0x2C, 0x20] + LayOut(rest, open)
      else [b] + LayOut(rest, open)
  }

  /** The same from inside a literal, which stays as it is. */
  ghost function LayOutLiteral(t: seq<byte>, open: seq<bool>): seq<byte>
    decreases |t|
  {
    if t == [] then []
    else if t[0] == 0x22 then [0x22] + LayOut(t[1..], open)
    else if t[0] == 0x5C && |t| > 1 then [t[0], t[1]] + LayOutLiteral(t[2..], open)
    else [t[0]] + LayOutLiteral(t[1..], open)
  }

  /** Bytes that stay as they are. */
  ghost predicate Inert(w: seq<byte>) {
    forall k :: 0 <= k < |w| ==> w[k] !in {0x22, 0x7B, 0x7D, 0x5B, 0x5D, 0x3A, 0x2C}
  }

  lemma {:induction false} LayOutInert(w: seq<byte>, rest: seq<byte>, open: seq<bool>)
    requires Inert(w)
    ensures LayOut(w + rest, open) == w + LayOut(rest, open)
  {
    if w == [] {
      assert [] + rest == rest && [] + LayOut(rest, open) == LayOut(rest, open);
    } else {
      assert Inert(w[1..]);
      LayOutInert(w[1..], rest, open);
      assert (w + rest)[1..] == w[1..] + rest && (w + rest)[0] == w[0];
      assert [w[0]] + (w[1..] + LayOut(rest, open)) == w + LayOut(rest, open);
    }
  }

  lemma {:induction false} LayOutDigits(w: seq<byte>, rest: seq<byte>, open: seq<bool>)
    requires forall k :: 0 <= k < |w| ==> w[k] != 0x22 && w[k] != 0x5C
    ensures LayOutLiteral(w + rest, open) == w + LayOutLiteral(rest, open)
  {
    if w == [] {
      assert [] + rest == rest && [] + LayOutLiteral(rest, open) == LayOutLiteral(rest, open);
    } else {
      LayOutDigits(w[1..], rest, open);
      assert (w + rest)[1..] == w[1..] + rest;
    }
  }

  lemma LayOutUnit(b: byte, rest: seq<byte>, open: seq<bool>)
    ensures LayOutLiteral(EscapeByte(b) + rest, open) == EscapeByte(b) + LayOutLiteral(rest, open)
  {
    var e := EscapeByte(b);
    if |e| == 1 {
      assert (e + rest)[1..] == rest;
    } else {
      assert (e + rest)[2..] == e[2..] + rest;
      if |e| == 2 {
        assert e[2..] + rest == rest;
      } else {
        LayOutDigits(e[2..], rest, open);
        assert e == [e[0], e[1]] + e[2..];
      }
    }
  }

  lemma {:induction false} LayOutEscape(s: seq<byte>, rest: seq<byte>, open: seq<bool>)
    ensures LayOutLiteral(Escape(s) + rest, open) == Escape(s) + LayOutLiteral(rest, open)
  {
    if s == [] {
      assert [] + rest == rest && [] + LayOutLiteral(rest, open) == LayOutLiteral(rest, open);
    } else {
      var e, more := EscapeByte(s[0]), Escape(s[1..]);
      LayOutEscape(s[1..], rest, open);
      LayOutUnit(s[0], more + rest, open);
      Join2(e, more, rest);
      Join2(e, more, LayOutLiteral(rest, open));
    }
  }

  lemma LayOutString(s: seq<byte>, rest: seq<byte>, open: seq<bool>)
    ensures LayOut(StringText(s) + rest, open) == StringText(s) + LayOut(rest, open)
  {
    var tail := [QUOTE] + rest;
    var inner := Escape(s) + tail;
    StringNode(s, rest);
    LayOutEscape(s, tail, open);
    assert ([QUOTE] + inner)[1..] == inner && tail[1..] == rest;
    StringNode(s, LayOut(rest, open));
  }

  lemma LeafLaidOut(v: Json, depth: nat, rest: seq<byte>, open: seq<bool>)
    requires Printable(v) && !v.Array? && !v.Object?
    ensures LayOut(RenderNode(v, depth, false) + rest, open) == RenderNode(v, depth, true) + LayOut(rest, open)
  {
    match v
    case Null => LayOutInert(NULL_TEXT, rest, open);
    case False => LayOutInert(FALSE_TEXT, rest, open);
    case True => LayOutInert(TRUE_TEXT, rest, open);
    case Number(d) =>
      InertInt(d.mantissa);
      LayOutInert(IntText(d.mantissa), rest, open);
    case String(s) => LayOutString(s, rest, open);
  }

  lemma InertInt(n: int)
    ensures Inert(IntText(n))
  {
    var t := IntText(n);
    assert forall k :: 0 <= k < |t| ==> t[k] == MINUS || IsDigit(t[k]);
  }

  /** Laying the unformatted text out gives the formatted one, whatever follows. */
  lemma {:induction false} RenderLaidOut(v: Json, rest: seq<byte>, open: seq<bool>)
    requires Printable(v)
    ensures LayOut(Render(v, |open|, false) + rest, open) == Render(v, |open|, true) + LayOut(rest, open)
    decreases v, 1
  {
    NodeOf(v, |open|, true);
    NodeOf(v, |open|, false);
    if v.Array? {
      ArrayLaidOut(v.items, rest, open);
    } else if v.Object? {
      ObjectLaidOut(v.members, rest, open);
    } else {
      LeafLaidOut(v, |open|, rest, open);
    }
  }

  lemma LayOutBracket(rest: seq<byte>, open: seq<bool>)
    ensures LayOut([OPEN_BRACKET] + rest, open) == [OPEN_BRACKET] + LayOut(rest, [false] + open)
  {
    assert ([OPEN_BRACKET] + rest)[1..] == rest;
  }

  lemma LayOutCloseBracket(rest: seq<byte>, open: seq<bool>)
    ensures LayOut([CLOSE_BRACKET] + rest, [false] + open) == [CLOSE_BRACKET] + LayOut(rest, open)
  {
    assert ([CLOSE_BRACKET] + rest)[1..] == rest && ([false] + open)[1..] == open;
  }

  lemma {:induction false} ArrayLaidOut(items: seq<Json>, rest: seq<byte>, open: seq<bool>)
    requires AllPrintable(items)
    ensures LayOut(RenderNode(Array(items), |open|, false) + rest, open) ==
            RenderNode(Array(items), |open|, true) + LayOut(rest, open)
    decreases items, 3
  {
    var inner, tail := [false] + open, [CLOSE_BRACKET] + rest;
    ArrayNode(items, |open|, false, rest);
    LayOutBracket(RenderItems(items, |open| + 1, false) + tail, open);
    ItemsLaidOut(items, tail, inner);
    LayOutCloseBracket(rest, open);
    ArrayNode(items, |open|, true, LayOut(rest, open));
  }

  lemma LayOutSeparator(rest: seq<byte>, open: seq<bool>)
    requires !InObject(open)
    ensures LayOut(Separator(false) + rest, open) == Separator(true) + LayOut(rest, open)
  {
    assert ([COMMA] + rest)[1..] == rest;
  }

  lemma {:induction false} ItemsLaidOut(items: seq<Json>, rest: seq<byte>, open: seq<bool>)
    requires AllPrintable(items) && !InObject(open)
    ensures LayOut(RenderItems(items, |open|, false) + rest, open) ==
            RenderItems(items, |open|, true) + LayOut(rest, open)
    decreases items, 2
  {
    if items == [] {
      assert [] + rest == rest && [] + LayOut(rest, open) == LayOut(rest, open);
    } else if |items| == 1 {
      RenderLaidOut(items[0], rest, open);
    } else {
      var tail := RenderItems(items[1..], |open|, false) + rest;
      ItemsNode(items, |open|, false, rest);
      RenderLaidOut(items[0], Separator(false) + tail, open);
      LayOutSeparator(tail, open);
      ItemsLaidOut(items[1..], rest, open);
      ItemsNode(items, |open|, true, LayOut(rest, open));
    }
  }

  lemma LayOutEmptyObject(rest: seq<byte>, open: seq<bool>)
    ensures LayOut([OPEN_BRACE] + ([CLOSE_BRACE] + rest), open) ==
            [OPEN_BRACE, NEWLINE] + Tabs(|open|) + [CLOSE_BRACE] + LayOut(rest, open)
  {
    var tail := [CLOSE_BRACE] + rest;
    assert ([OPEN_BRACE] + tail)[1..] == tail && tail[1..] == rest;
  }

  lemma LayOutBrace(rest: seq<byte>, open: seq<bool>)
    requires rest != [] && rest[0] == QUOTE
    ensures LayOut([OPEN_BRACE] + rest, open) ==
            [OPEN_BRACE, NEWLINE] + (Tabs(|open| + 1) + LayOut(rest, [true] + open))
  {
    assert ([OPEN_BRACE] + rest)[1..] == rest;
    assert [OPEN_BRACE, NEWLINE] + Tabs(|open| + 1) + LayOut(rest, [true] + open) ==
           [OPEN_BRACE, NEWLINE] + (Tabs(|open| + 1) + LayOut(rest, [true] + open));
  }

  lemma LayOutCloseBrace(rest: seq<byte>, open: seq<bool>)
    ensures LayOut([CLOSE_BRACE] + rest, [true] + open) ==
            [NEWLINE] + (Tabs(|open|) + ([CLOSE_BRACE] + LayOut(rest, open)))
  {
    assert ([CLOSE_BRACE] + rest)[1..] == rest && ([true] + open)[1..] == open;
    Join3([NEWLINE], Tabs(|open|), [CLOSE_BRACE], LayOut(rest, open));
  }

  lemma LayOutColon(rest: seq<byte>, open: seq<bool>)
    ensures LayOut(KeyEnd(false) + rest, open) == KeyEnd(true) + LayOut(rest, open)
  {
    assert ([COLON] + rest)[1..] == rest;
  }

  lemma LayOutComma(rest: seq<byte>, open: seq<bool>)
    requires InObject(open)
    ensures LayOut([COMMA] + rest, open) == [COMMA, NEWLINE] + (Tabs(|open|) + LayOut(rest, open))
  {
    assert ([COMMA] + rest)[1..] == rest;
    assert [COMMA, NEWLINE] + Tabs(|open|) + LayOut(rest, open) ==
           [COMMA, NEWLINE] + (Tabs(|open|) + LayOut(rest, open));
  }

  /** The tabs in front of a member are written by what comes before it. */
  lemma {:induction false} MemberLaidOut(m: Member, rest: seq<byte>, open: seq<bool>)
    requires NUL !in m.key && Printable(m.value)
    ensures Tabs(|open|) + LayOut(RenderMember(m, |open|, false) + rest, open) ==
            RenderMember(m, |open|, true) + LayOut(rest, open)
    decreases m, 0
  {
    var value := Render(m.value, |open|, false) + rest;
    var colon := KeyEnd(false) + value;
    MemberNode(m, |open|, false, rest);
    assert [] + (StringText(m.key) + colon) == StringText(m.key) + colon;
    LayOutString(m.key, colon, open);
    LayOutColon(value, open);
    RenderLaidOut(m.value, rest, open);
    MemberNode(m, |open|, true, LayOut(rest, open));
  }

  lemma {:induction false} MembersLaidOut(members: seq<Member>, rest: seq<byte>, open: seq<bool>)
    requires AllMembersPrintable(members) && members != []
    ensures var inner := [true] + open;
            Tabs(|inner|) + LayOut(RenderMembers(members, |inner|, false) + ([CLOSE_BRACE] + rest), inner) ==
            RenderMembers(members, |inner|, true) + (Tabs(|open|) + ([CLOSE_BRACE] + LayOut(rest, open)))
    decreases members, 2
  {
    var inner, end := [true] + open, [CLOSE_BRACE] + rest;
    MembersNode(members, |inner|, false, end);
    AfterMemberLaidOut(members, rest, open);
    MemberLaidOut(members[0], MemberEnd(|members| == 1, false) + (RenderMembers(members[1..], |inner|, false) + end),
                  inner);
    MembersNode(members, |inner|, true, Tabs(|open|) + ([CLOSE_BRACE] + LayOut(rest, open)));
  }

  lemma {:induction false} AfterMemberLaidOut(members: seq<Member>, rest: seq<byte>, open: seq<bool>)
    requires AllMembersPrintable(members) && members != []
    ensures var inner, last, others := [true] + open, |members| == 1, members[1..];
            LayOut(MemberEnd(last, false) + (RenderMembers(others, |inner|, false) + ([CLOSE_BRACE] + rest)), inner) ==
            MemberEnd(last, true) +
              (RenderMembers(others, |inner|, true) + (Tabs(|open|) + ([CLOSE_BRACE] + LayOut(rest, open))))
    decreases members, 1
  {
    var inner, end, others := [true] + open, [CLOSE_BRACE] + rest, members[1..];
    var closing := Tabs(|open|) + ([CLOSE_BRACE] + LayOut(rest, open));
    if |members| == 1 {
      assert [] + ([] + end) == end && [] + closing == closing;
      LayOutCloseBrace(rest, open);
    } else {
      LayOutComma(RenderMembers(others, |inner|, false) + end, inner);
      MembersLaidOut(others, rest, open);
    }
  }

  lemma FirstIsQuote(members: seq<Member>, depth: nat, rest: seq<byte>)
    requires AllMembersPrintable(members) && members != []
    ensures var t := RenderMembers(members, depth, false) + rest; t != [] && t[0] == QUOTE
  {
    var tail := MemberEnd(|members| == 1, false) + (RenderMembers(members[1..], depth, false) + rest);
    MembersNode(members, depth, false, rest);
    MemberNode(members[0], depth, false, tail);
  }

  lemma {:induction false} ObjectLaidOut(members: seq<Member>, rest: seq<byte>, open: seq<bool>)
    requires AllMembersPrintable(members)
    ensures LayOut(RenderNode(Object(members), |open|, false) + rest, open) ==
            RenderNode(Object(members), |open|, true) + LayOut(rest, open)
    decreases members, 3
  {
    var end, after := [CLOSE_BRACE] + rest, LayOut(rest, open);
    ObjectNode(members, |open|, false, rest);
    ObjectNode(members, |open|, true, after);
    assert [] + end == end;
    if members == [] {
      LayOutEmptyObject(rest, open);
      Join3([OPEN_BRACE, NEWLINE], Tabs(|open|), [CLOSE_BRACE], after);
      assert [] + (Tabs(|open|) + ([CLOSE_BRACE] + after)) == Tabs(|open|) + ([CLOSE_BRACE] + after);
    } else {
      FirstIsQuote(members, |open| + 1, end);
      LayOutBrace(RenderMembers(members, |open| + 1, false) + end, open);
      MembersLaidOut(members, rest, open);
    }
  }

  /** The formatted text is the unformatted one, laid out. */
  lemma FormattedIsLaidOut(v: Json)
    requires Printable(v)
    ensures Render(v, 0, true) == LayOut(Render(v, 0, false), [])
  {
    RenderLaidOut(v, [], []);
    var a, b := Render(v, 0, true), Render(v, 0, false);
    assert a + [] == a && b + [] == b;
  }

  // ---- the spelling of strings ----

  lemma {:induction false} EscapeConcat(a: seq<byte>, b: seq<byte>)
    ensures Escape(a + b) == Escape(a) + Escape(b)
  {
    if a == [] {
      assert [] + b == b && [] + Escape(b) == Escape(b);
    } else {
      EscapeConcat(a[1..], b);
      assert (a + b)[1..] == a[1..] + b;
      Join2(EscapeByte(a[0]), Escape(a[1..]), Escape(b));
    }
  }

  /** Bytes from 128 on stand for themselves. */
  lemma {:induction false} HighBytes(s: seq<byte>)
    requires forall k :: 0 <= k < |s| ==> s[k] >= 0x80
    ensures Escape(s) == s
  {
    if s != [] { HighBytes(s[1..]); }
  }

  lemma CharNotShorter(ch: Char, c: seq<byte>, i: nat)
    requires CharAt(ch, c, i) && c[i] >= 32
    ensures |Escape(Meaning(ch))| <= Length(ch)
  {
    var m := Meaning(ch);
    if |m| == 1 {
      assert Escape(m) == EscapeByte(m[0]) + Escape(m[1..]) == EscapeByte(m[0]);
    }
    match ch
    case Plain(b) =>
    case Short(letter) => assert ESCAPES.Keys == {0x22, 0x5C, 0x2F, 0x62, 0x66, 0x6E, 0x72, 0x74};
    case Code(n) => if |m| > 1 { HighBytes(m); }
  }

  lemma {:induction false} CharsNotShorter(s: seq<byte>, c: seq<byte>, i: nat, end: nat)
    requires CharsAt(s, c, i, end) && end <= |c| && forall k :: i <= k < end ==> c[k] >= 32
    ensures |Escape(s)| <= end - i
    decreases end - i
  {
    assert MoreCharsAt(s, c, i, end);
    assert FirstCharAt(s, c, i, end);
    if i < end {
      var ch :| CharAt(ch, c, i) && RestAt(ch, s, c, i, end);
      var m := Meaning(ch);
      CharNotShorter(ch, c, i);
      CharsNotShorter(s[|m|..], c, i + Length(ch), end);
      assert s == m + s[|m|..];
      EscapeConcat(m, s[|m|..]);
    }
  }

  /** Of all the literals of a string that hold no control bytes, none is shorter than the printed one. */
  lemma LiteralIsShortest(s: seq<byte>, c: seq<byte>, i: nat, j: nat)
    requires SpellsString(s, c, i, j) && j <= |c| && forall k :: i <= k < j ==> c[k] >= 32
    ensures |StringText(s)| <= j - i
  {
    CharsNotShorter(s, c, i + 1, j - 1);
  }

  /** The printed one holds none, and spells them as short escapes or in lower-case hex digits. */
  lemma {:induction false} LiteralHasNoControls(s: seq<byte>)
    ensures forall k :: 0 <= k < |StringText(s)| ==> StringText(s)[k] >= 32
  {
    EscapeHasNoControls(s);
  }

  lemma {:induction false} EscapeHasNoControls(s: seq<byte>)
    ensures forall k :: 0 <= k < |Escape(s)| ==> Escape(s)[k] >= 32
  {
    if s != [] { EscapeHasNoControls(s[1..]); }
  }

  lemma ControlsInLowerCase(b: byte)
    requires b < 32 && b !in {0x08, 0x09, 0x0A, 0x0C, 0x0D}
    ensures EscapeByte(b) == [0x5C, 0x75, 0x30, 0x30, LOWER_DIGITS[b / 16], LOWER_DIGITS[b % 16]]
  {
    LowerDigit(b / 16);
    LowerDigit(b % 16);
  }

  // ---- the spelling of numbers ----

  lemma {:induction false} NoLeadingZero(n: nat)
    ensures |NatText(n)| > 1 ==> NatText(n)[0] != 0x30
    ensures n > 0 ==> NatText(n)[0] != 0x30
  {
    if n >= 10 { NoLeadingZero(n / 10); }
  }

  /** An int is printed as its digits, without leading zeros, fraction or exponent, behind a minus if it is negative. */
  lemma IntIsDigits(n: int)
    ensures var t := IntText(n); var digits := if n < 0 then t[1..] else t;
            && (n < 0 ==> t[0] == 0x2D) && |digits| >= 1 && AllDigits(digits)
            && (|digits| > 1 ==> digits[0] != 0x30) && DigitsValue(digits) == if n < 0 then -n else n
  {
    var m := if n < 0 then -n else n;
    NoLeadingZero(m);
    NatTextValue(m);
    if n < 0 { assert IntText(n)[1..] == NatText(m); }
  }
}
