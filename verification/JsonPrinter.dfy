/**
 The printers as they run: a buffer that grows, or does not, an offset that lags behind the text until it is
 caught up by looking for the terminator, and a nesting depth. Printing succeeds exactly when the text and
 two more bytes fit, and then the buffer holds the text, terminated, whatever buffer it started with.
 */
module JsonPrinter {
  import opened Bytes
  import opened JsonText
  import opened JsonList
  import opened JsonTree

  // ---- how many bytes the escapes add ----

  /** What the counting loop adds for a byte. */
  function ExtraFor(b: byte): nat {
    if b == QUOTE || b == BACKSLASH || b == 0x08 || b == 0x0C || b == 0x0A || b == 0x0D || b == 0x09 then 1
    else if b < 32 then 5 else 0
  }

  function Extra(s: seq<byte>): nat {
    if s == [] then 0 else ExtraFor(s[0]) + Extra(s[1..])
  }

  lemma {:induction false} EscapeLength(s: seq<byte>)
    ensures |Escape(s)| == |s| + Extra(s)
  {
    if s != [] { EscapeLength(s[1..]); }
  }

  lemma {:induction false} NothingToEscape(s: seq<byte>)
    requires Extra(s) == 0
    ensures Escape(s) == s
  {
    if s != [] {
      NothingToEscape(s[1..]);
      assert s == [s[0]] + s[1..];
    }
  }

  /** The tree under `item` prints as `v`. */
  ghost predicate Shows(item: Item, t: Shape, v: Json)
    reads item`data, item`child, item`children, t.nodes - {item}
  {
    Tree(item, t) && v == JsonOf(Contents(t)) && Printable(v)
  }

  lemma ShowsNode(item: Item, t: Shape, v: Json)
    requires Shows(item, t, v)
    ensures match item.data.kind
            case NullKind => v == Null
            case FalseKind => v == False
            case TrueKind => v == True
            case NumberKind(d) => v == Number(d)
            case StringKind(text) => v == String(CString(text))
            case ArrayKind => v == Array(JsonAll(ContentsAll(t.children)))
            case ObjectKind => v == Object(JsonMembers(ContentsAll(t.children)))
  {
    TreeList(item, t);
  }

  class Printer {
    var buffer: array<byte>
    var offset: nat
    var depth: nat
    const noalloc: bool
    const format: bool

    ghost predicate Valid()
      reads this
    {
      buffer.Length <= INT_MAX && (offset < buffer.Length || offset == buffer.Length == 0)
    }

    /** The bytes behind the offset. */
    ghost function Text(): seq<byte>
      requires Valid()
      reads this, buffer
    {
      buffer[..offset]
    }

    /** How large the buffer can get. */
    function Limit(): nat
      reads this
    {
      if noalloc then buffer.Length else INT_MAX
    }

    /** The buffer holds `t` as a C string. */
    ghost predicate Holds(t: seq<byte>)
      reads this, buffer
    {
      |t| < buffer.Length && buffer[..|t|] == t && buffer[|t|] == NUL
    }

    constructor (bytes: array<byte>, fixed: bool, formatted: bool)
      requires bytes.Length <= INT_MAX
      ensures Valid() && buffer == bytes && offset == 0 && depth == 0 && noalloc == fixed && format == formatted
    {
      buffer := bytes;
      offset := 0;
      depth := 0;
      noalloc := fixed;
      format := formatted;
    }

    /** Makes room for `needed` bytes and one more; a growing buffer doubles what is needed. */
    method Ensure(needed: nat) returns (ok: bool)
      requires Valid()
      modifies this
      ensures Valid() && offset == old(offset) && depth == old(depth) && Limit() == old(Limit())
      ensures buffer == old(buffer) || (fresh(buffer) && !noalloc)
      ensures ok == (offset + needed + 1 <= Limit())
      ensures ok ==> offset + needed + 1 <= buffer.Length
      ensures Text() == old(Text())
    {
      if buffer.Length > 0 && offset >= buffer.Length { return false; }
      if needed > INT_MAX { return false; }
      var total := needed + offset + 1;
      if total <= buffer.Length { return true; }
      if noalloc { return false; }
      var size;
      if total > INT_MAX / 2 {
        if total > INT_MAX { return false; }
        size := INT_MAX;
      } else {
        size := total * 2;
      }
      var larger := new byte[size];
      var i: nat := 0;
      while i < buffer.Length
        invariant i <= buffer.Length && larger[..i] == buffer[..i]
        modifies larger
      {
        larger[i] := buffer[i];
        i := i + 1;
      }
      assert larger[..offset] == larger[..i][..offset] == buffer[..i][..offset] == buffer[..offset];
      buffer := larger;
      return true;
    }

    /** Stores `t` from the offset on. */
    method Store(t: seq<byte>)
      requires Valid() && offset + |t| <= buffer.Length
      modifies buffer
      ensures buffer[..offset + |t|] == old(Text()) + t
    {
      var i := 0;
      while i < |t|
        invariant i <= |t| && buffer[..offset + i] == old(Text()) + t[..i]
      {
        buffer[offset + i] := t[i];
        i := i + 1;
        assert t[..i] == t[..i - 1] + [t[i - 1]];
        assert buffer[..offset + i] == buffer[..offset + i - 1] + [t[i - 1]];
      }
      assert t[..i] == t;
    }

    /** Reserves `t` and `extra` more bytes, stores `t` and steps over it. */
    method Append(t: seq<byte>, extra: nat) returns (ok: bool)
      requires Valid()
      modifies this, buffer
      ensures Valid() && depth == old(depth) && Limit() == old(Limit())
      ensures buffer == old(buffer) || (!noalloc && fresh(buffer))
      ensures ok == (old(offset) + |t| + extra + 1 <= Limit())
      ensures ok ==> Text() == old(Text()) + t
    {
      ok := Ensure(|t| + extra);
      if ok {
        Store(t);
        offset := offset + |t|;
      }
    }

    /** Reserves `t` and its terminator and stores both; the offset stays behind. */
    method Finish(t: seq<byte>) returns (ok: bool)
      requires Valid()
      modifies this, buffer
      ensures Valid() && depth == old(depth) && Limit() == old(Limit())
      ensures buffer == old(buffer) || (!noalloc && fresh(buffer))
      ensures ok == (old(offset) + |t| + 2 <= Limit())
      ensures ok ==> offset == old(offset) && Holds(old(Text()) + t)
    {
      ok := Ensure(|t| + 1);
      if ok {
        Store(t + [NUL]);
        ghost var all := old(Text()) + (t + [NUL]);
        assert buffer[..|all|] == all;
        assert buffer[..|all| - 1] == all[..|all| - 1] == old(Text()) + t;
        assert buffer[|all| - 1] == all[|all| - 1];
      }
    }

    /** Moves the offset to the terminator. */
    method UpdateOffset(ghost t: seq<byte>)
      requires Valid() && offset <= |t| && Holds(t) && forall k :: offset <= k < |t| ==> t[k] != NUL
      modifies this`offset
      ensures Valid() && Text() == t && Limit() == old(Limit())
    {
      assert forall k :: 0 <= k < |t| ==> buffer[k] == t[k];
      while buffer[offset] != NUL
        invariant old(offset) <= offset <= |t|
        decreases |t| - offset
      {
        offset := offset + 1;
      }
    }

    method Number(n: int) returns (ok: bool)
      requires Valid() && INT_MIN <= n <= INT_MAX
      modifies this, buffer
      ensures Valid() && depth == old(depth) && Limit() == old(Limit())
      ensures buffer == old(buffer) || (!noalloc && fresh(buffer))
      ensures ok == (old(offset) + |IntText(n)| + 2 <= Limit())
      ensures ok ==> old(offset) <= offset <= old(offset) + |IntText(n)| && Holds(old(Text()) + IntText(n))
    {
      var digits := IntText(n);
      IntTextLength(n);
      if |digits| > 25 { return false; }
      ok := Finish(digits);
      if ok { offset := offset + |digits|; }
    }

    /** Counts what escaping adds, reserves, then copies or escapes byte by byte between the quotes. */
    method Literal(s: seq<byte>) returns (ok: bool)
      requires Valid()
      modifies this, buffer
      ensures Valid() && depth == old(depth) && Limit() == old(Limit())
      ensures buffer == old(buffer) || (!noalloc && fresh(buffer))
      ensures ok == (old(offset) + |StringText(s)| + 2 <= Limit())
      ensures ok ==> offset == old(offset) && Holds(old(Text()) + StringText(s))
    {
      var extra := CountEscapes(s);
      EscapeLength(s);
      var length := |s| + extra;
      ok := Ensure(length + 3);
      if !ok { return; }
      ghost var before := Text();
      buffer[offset] := QUOTE;
      assert buffer[..offset + 1] == before + [QUOTE];
      Body(s, extra, offset + 1);
      CloseLiteral(before, s, offset + length + 1);
    }

    /** Between the quotes: a plain copy if there is nothing to escape. */
    method Body(s: seq<byte>, extra: nat, at: nat)
      requires extra == Extra(s) && at + |Escape(s)| < buffer.Length
      modifies buffer
      ensures buffer[..at + |Escape(s)|] == old(buffer[..at]) + Escape(s)
    {
      if extra == 0 {
        NothingToEscape(s);
        Copy(s, at);
      } else {
        CopyEscaped(s, at);
      }
    }

    method CloseLiteral(ghost before: seq<byte>, ghost s: seq<byte>, at: nat)
      requires at + 1 < buffer.Length && at == |before| + 1 + |Escape(s)|
      requires buffer[..at] == before + [QUOTE] + Escape(s)
      modifies buffer
      ensures Holds(before + StringText(s))
    {
      ghost var body := before + [QUOTE] + Escape(s);
      buffer[at] := QUOTE;
      buffer[at + 1] := NUL;
      assert before + StringText(s) == body + [QUOTE];
      assert buffer[..at + 1] == body + [QUOTE];
    }

    method CountEscapes(s: seq<byte>) returns (extra: nat)
      ensures extra == Extra(s)
    {
      extra := 0;
      var i := 0;
      while i < |s|
        invariant i <= |s| && extra + Extra(s[i..]) == Extra(s)
      {
        extra := extra + ExtraFor(s[i]);
        assert s[i..][1..] == s[i + 1..];
        i := i + 1;
      }
    }

    method Copy(s: seq<byte>, at: nat)
      requires at + |s| <= buffer.Length
      modifies buffer
      ensures buffer[..at + |s|] == old(buffer[..at]) + s
    {
      var i := 0;
      while i < |s|
        invariant i <= |s| && buffer[..at + i] == old(buffer[..at]) + s[..i]
      {
        buffer[at + i] := s[i];
        assert s[..i + 1] == s[..i] + [s[i]];
        assert buffer[..at + i + 1] == buffer[..at + i] + [s[i]];
        i := i + 1;
      }
      assert s[..i] == s;
    }

    method CopyEscaped(s: seq<byte>, at: nat)
      requires at + |Escape(s)| < buffer.Length
      modifies buffer
      ensures buffer[..at + |Escape(s)|] == old(buffer[..at]) + Escape(s)
    {
      ghost var all := old(buffer[..at]) + Escape(s);
      var i: nat, out: nat := 0, at;
      assert s[0..] == s;
      while i < |s|
        invariant i <= |s| && out + |Escape(s[i..])| == |all| && out <= buffer.Length
        invariant buffer[..out] + Escape(s[i..]) == all
      {
        assert s[i..][1..] == s[i + 1..];
        ghost var done := buffer[..out];
        Regroup(done, EscapeByte(s[i]), Escape(s[i + 1..]));
        out := StoreEscape(s[i], out);
        i := i + 1;
      }
      assert buffer[..out] + [] == buffer[..out];
    }

    /** One byte, escaped; `sprintf` also terminates what it writes, one byte beyond. */
    method StoreEscape(b: byte, at: nat) returns (next: nat)
      requires at + |EscapeByte(b)| < buffer.Length
      modifies buffer
      ensures next == at + |EscapeByte(b)| && buffer[..next] == old(buffer[..at]) + EscapeByte(b)
    {
      if b > 31 && b != QUOTE && b != BACKSLASH {
        buffer[at] := b;
        next := at + 1;
      } else {
        buffer[at] := BACKSLASH;
        if ShortEscape(b) != NUL {
          buffer[at + 1] := ShortEscape(b);
          next := at + 2;
        } else {
          buffer[at + 1], buffer[at + 2], buffer[at + 3] := LETTER_U, ZERO, ZERO;
          buffer[at + 4], buffer[at + 5] := HexDigit(b / 16), HexDigit(b % 16);
          buffer[at + 6] := NUL;
          next := at + 6;
        }
      }
    }

    // ---- values ----

    /** Printing succeeds if and only if the text, a terminator and one more byte fit. */
    method Value(item: Item, ghost t: Shape, ghost v: Json, ghost text: seq<byte>) returns (ok: bool)
      requires Valid() && Shows(item, t, v) && text == Render(v, depth, format)
      modifies this, buffer
      ensures Valid() && Limit() == old(Limit()) && (buffer == old(buffer) || (!noalloc && fresh(buffer)))
      ensures ok == (old(offset) + |text| + 2 <= Limit())
      ensures ok ==>
                depth == old(depth) && old(offset) <= offset <= old(offset) + |text| && Holds(old(Text()) + text)
      decreases t, 1
    {
      ShowsNode(item, t, v);
      if item.data.kind.ArrayKind? {
        ArrayText(v.items, depth, format);
        ok := List(item, t, v.items, RenderItems(v.items, depth + 1, format));
      } else if item.data.kind.ObjectKind? {
        ObjectText(v.members, depth, format);
        ok := Dictionary(item, t, v.members, RenderMembers(v.members, depth + 1, format), ObjectStart(format),
                         Indent(depth, format) + [CLOSE_BRACE]);
      } else {
        ok := Scalar(item, t, v, text);
      }
    }

    /** A value without children. */
    method Scalar(item: Item, ghost t: Shape, ghost v: Json, ghost text: seq<byte>) returns (ok: bool)
      requires Valid() && Shows(item, t, v) && text == Render(v, depth, format)
      requires !item.data.kind.ArrayKind? && !item.data.kind.ObjectKind?
      modifies this, buffer
      ensures Valid() && Limit() == old(Limit()) && (buffer == old(buffer) || (!noalloc && fresh(buffer)))
      ensures ok == (old(offset) + |text| + 2 <= Limit())
      ensures ok ==>
                depth == old(depth) && old(offset) <= offset <= old(offset) + |text| && Holds(old(Text()) + text)
    {
      ShowsNode(item, t, v);
      assert Render(v, depth, format) == RenderNode(v, depth, format);
      match item.data.kind
      case NullKind => ok := Finish(NULL_TEXT);
      case FalseKind => ok := Finish(FALSE_TEXT);
      case TrueKind => ok := Finish(TRUE_TEXT);
      case NumberKind(d) => ok := Number(d.mantissa);
      case StringKind(s) => ok := Literal(CString(s));
    }

    /** Prints a value and catches the offset up with it. */
    method Through(item: Item, ghost w: Shape, ghost v: Json, ghost t: seq<byte>) returns (ok: bool)
      requires Valid() && Shows(item, w, v) && t == Render(v, depth, format)
      modifies this, buffer
      ensures Valid() && Limit() == old(Limit()) && (buffer == old(buffer) || (!noalloc && fresh(buffer)))
      ensures ok == (old(offset) + |t| + 2 <= Limit())
      ensures ok ==> depth == old(depth) && Text() == old(Text()) + t
      decreases w, 2
    {
      ghost var before := Text();
      ok := Value(item, w, v, t);
      if ok {
        assert forall k :: |before| <= k < |before + t| ==> (before + t)[k] == t[k - |before|];
        UpdateOffset(before + t);
      }
    }

    method List(item: Item, ghost t: Shape, ghost items: seq<Json>, ghost body: seq<byte>) returns (ok: bool)
      requires Valid() && Tree(item, t) && items == JsonAll(ContentsAll(t.children))
      requires AllPrintable(items) && body == RenderItems(items, depth + 1, format)
      modifies this, buffer
      ensures Valid() && Limit() == old(Limit()) && (buffer == old(buffer) || (!noalloc && fresh(buffer)))
      ensures ok == (old(offset) + |body| + 4 <= Limit())
      ensures ok ==>
                && depth == old(depth) && old(offset) <= offset <= old(offset) + |body| + 2
                && Holds(old(Text()) + ([OPEN_BRACKET] + body + [CLOSE_BRACKET]))
      decreases t, 0, 2
    {
      ghost var before := Text();
      ok := Append([OPEN_BRACKET], 0);
      if !ok { return; }
      depth := depth + 1;
      ok := Elements(item, t, items, body);
      if !ok { return; }
      ok := Finish([CLOSE_BRACKET]);
      depth := depth - 1;
      Between(before, [OPEN_BRACKET], body, [CLOSE_BRACKET]);
    }

    /** The walk along the children. */
    method Elements(item: Item, ghost t: Shape, ghost items: seq<Json>, ghost body: seq<byte>) returns (ok: bool)
      requires Valid() && Tree(item, t) && items == JsonAll(ContentsAll(t.children))
      requires AllPrintable(items) && body == RenderItems(items, depth, format)
      modifies this, buffer
      ensures Valid() && Limit() == old(Limit()) && (buffer == old(buffer) || (!noalloc && fresh(buffer)))
      ensures ok ==> depth == old(depth) && Text() == old(Text()) + body
      ensures !ok ==> old(offset) + |body| + 3 > Limit()
      decreases t, 0, 1
    {
      ghost var all, rest, k: nat := Text() + body, body, 0;
      TreeList(item, t);
      var child := item.child;
      assert items[0..] == items;
      while child != null
        invariant k <= |items| == |item.children| && child == if k < |items| then item.children[k] else null
        invariant AllPrintable(items[k..]) && depth == old(depth)
        invariant Valid() && Limit() == old(Limit()) && (buffer == old(buffer) || (!noalloc && fresh(buffer)))
        invariant rest == RenderItems(items[k..], depth, format) && Text() + rest == all
        decreases |items| - k
      {
        ok, rest := NextElement(item, child, t, items, k, rest, all);
        if !ok { return; }
        child := child.next;
        k := k + 1;
      }
      assert all == Text();
      ok := true;
    }

    /** An element and, unless it is the last, what separates it from the next. */
    method NextElement(ghost item: Item, child: Item, ghost t: Shape, ghost items: seq<Json>, ghost k: nat,
                       ghost rest: seq<byte>, ghost all: seq<byte>) returns (ok: bool, ghost tail: seq<byte>)
      requires Valid() && Tree(item, t) && items == JsonAll(ContentsAll(t.children))
      requires k < |items| == |item.children| && child == item.children[k] && AllPrintable(items[k..])
      requires rest == RenderItems(items[k..], depth, format) && Text() + rest == all
      modifies this, buffer
      ensures Valid() && Limit() == old(Limit()) && (buffer == old(buffer) || (!noalloc && fresh(buffer)))
      ensures AllPrintable(items[k + 1..]) && tail == RenderItems(items[k + 1..], old(depth), format)
      ensures ok ==> depth == old(depth) && Text() + tail == all
      ensures !ok ==> |all| + 3 > Limit()
      ensures child.next == if k + 1 < |items| then item.children[k + 1] else null
      decreases t, 0, 0
    {
      TreeChild(item, t, k);
      JsonAt(t.children, k);
      ghost var text;
      text, tail := NextItem(items, k, depth, format, Text(), rest, all);
      ok := Through(child, t.children[k], items[k], text);
      if ok && child.next != null {
        ok := Append(Separator(format), 1);
      }
    }

    method Dictionary(item: Item, ghost t: Shape, ghost members: seq<Member>, ghost body: seq<byte>,
                      ghost open: seq<byte>, ghost close: seq<byte>) returns (ok: bool)
      requires Valid() && Tree(item, t) && members == JsonMembers(ContentsAll(t.children))
      requires AllMembersPrintable(members) && body == RenderMembers(members, depth + 1, format)
      requires open == ObjectStart(format) && close == Indent(depth, format) + [CLOSE_BRACE] && |close| >= 1
      modifies this, buffer
      ensures Valid() && Limit() == old(Limit()) && (buffer == old(buffer) || (!noalloc && fresh(buffer)))
      ensures ok == (old(offset) + |open| + |body| + |close| + 2 <= Limit())
      ensures ok ==>
                && depth == old(depth) && old(offset) <= offset <= old(offset) + |open| + |body|
                && Holds(old(Text()) + (open + body + close))
      decreases t, 0, 3
    {
      ghost var before := Text();
      var end := Indent(depth, format) + [CLOSE_BRACE];
      depth := depth + 1;
      ok := OpenMembers(item, t, members, body, open);
      if !ok { return; }
      ghost var all := Text() + close;
      assert all == before + (open + body + close) by { Between(before, open, body, close); }
      ok := Finish(end);
      depth := depth - 1;
    }

    method OpenMembers(item: Item, ghost t: Shape, ghost members: seq<Member>, ghost body: seq<byte>,
                       ghost open: seq<byte>) returns (ok: bool)
      requires Valid() && Tree(item, t) && members == JsonMembers(ContentsAll(t.children))
      requires AllMembersPrintable(members) && body == RenderMembers(members, depth, format)
      requires open == ObjectStart(format)
      modifies this, buffer
      ensures Valid() && Limit() == old(Limit()) && (buffer == old(buffer) || (!noalloc && fresh(buffer)))
      ensures ok ==> depth == old(depth) && Text() == old(Text()) + open + body
      ensures !ok ==> old(offset) + |open| + |body| + 2 > Limit()
      decreases t, 0, 2
    {
      ok := Append(ObjectStart(format), 1);
      if !ok { return; }
      ok := Members(item, t, members, body);
    }

    method Members(item: Item, ghost t: Shape, ghost members: seq<Member>, ghost body: seq<byte>) returns (ok: bool)
      requires Valid() && Tree(item, t) && members == JsonMembers(ContentsAll(t.children))
      requires AllMembersPrintable(members) && body == RenderMembers(members, depth, format)
      modifies this, buffer
      ensures Valid() && Limit() == old(Limit()) && (buffer == old(buffer) || (!noalloc && fresh(buffer)))
      ensures ok ==> depth == old(depth) && Text() == old(Text()) + body
      ensures !ok ==> old(offset) + |body| + 2 > Limit()
      decreases t, 0, 1
    {
      ghost var all, rest, k: nat := Text() + body, body, 0;
      TreeList(item, t);
      var child := item.child;
      AheadFromStart(members, depth, format);
      while child != null
        invariant k <= |members| == |item.children| && child == if k < |members| then item.children[k] else null
        invariant Valid() && Limit() == old(Limit()) && (buffer == old(buffer) || (!noalloc && fresh(buffer)))
        invariant Ahead(members, k, rest, depth, format) && Text() + rest == all && depth == old(depth)
        decreases |members| - k
      {
        ok, child, rest := NextPair(item, child, t, members, k, rest, all);
        if !ok { return; }
        k := k + 1;
      }
      NothingAhead(members, rest, depth, format);
      assert Text() + [] == Text();
      ok := true;
    }

    method NextPair(ghost item: Item, child: Item, ghost t: Shape, ghost members: seq<Member>, ghost k: nat,
                    ghost rest: seq<byte>, ghost all: seq<byte>) returns (ok: bool, next: Item?, ghost tail: seq<byte>)
      requires Valid() && Tree(item, t) && members == JsonMembers(ContentsAll(t.children))
      requires k < |members| == |item.children| && child == item.children[k]
      requires Ahead(members, k, rest, depth, format) && Text() + rest == all
      modifies this, buffer
      ensures Valid() && Limit() == old(Limit()) && (buffer == old(buffer) || (!noalloc && fresh(buffer)))
      ensures Ahead(members, k + 1, tail, old(depth), format)
      ensures ok ==> depth == old(depth) && Text() + tail == all
      ensures !ok ==> |all| + 2 > Limit()
      ensures next == if k + 1 < |members| then item.children[k + 1] else null
      decreases t, 0, 0
    {
      TreeChild(item, t, k);
      JsonMemberAt(t.children, k);
      assert AheadAt(members, k, rest, depth, format);
      ghost var text;
      text, tail := NextMember(members, k, depth, format, Text(), rest, all);
      ok := Pair(child, t.children[k], members[k], text);
      next := child.next;
    }

    /** A member with its indentation, colon, value and line end. */
    method Pair(child: Item, ghost w: Shape, ghost m: Member, ghost t: seq<byte>) returns (ok: bool)
      requires Valid() && Shows(child, w, m.value) && m.key == KeyText(w.data.name) && NUL !in m.key
      requires t == RenderMember(m, depth, format)
      modifies this, buffer
      ensures Valid() && Limit() == old(Limit()) && (buffer == old(buffer) || (!noalloc && fresh(buffer)))
      ensures ok == (old(offset) + |t| + |MemberEnd(child.next == null, format)| + 2 <= Limit())
      ensures ok ==> depth == old(depth) && Text() == old(Text()) + t + MemberEnd(child.next == null, format)
      decreases w, 3
    {
      ghost var before, name, value := Text(), NameText(m.key, depth, format), Render(m.value, depth, format);
      Regroup(before, name, value);
      TreeList(child, w);
      ok := Name(KeyText(child.data.name), name);
      if !ok { return; }
      ok := Through(child, w, m.value, value);
      if !ok { return; }
      ok := Append(MemberEnd(child.next == null, format), 1);
    }

    method Name(key: seq<byte>, ghost t: seq<byte>) returns (ok: bool)
      requires Valid() && NUL !in key && t == NameText(key, depth, format)
      modifies this, buffer
      ensures Valid() && depth == old(depth) && Limit() == old(Limit())
      ensures buffer == old(buffer) || (!noalloc && fresh(buffer))
      ensures ok ==> Text() == old(Text()) + t
      ensures !ok ==> old(offset) + |t| + 2 > Limit()
    {
      ghost var before, pad := Text(), Indent(depth, format);
      if format {
        ok := Append(Tabs(depth), 0);
        if !ok { return; }
      }
      assert Text() == before + pad;
      ok := Key(key);
      if !ok { return; }
      ok := Append(KeyEnd(format), 0);
      Between(before, pad, StringText(key), KeyEnd(format));
    }

    method Key(s: seq<byte>) returns (ok: bool)
      requires Valid() && NUL !in s
      modifies this, buffer
      ensures Valid() && depth == old(depth) && Limit() == old(Limit())
      ensures buffer == old(buffer) || (!noalloc && fresh(buffer))
      ensures ok == (old(offset) + |StringText(s)| + 2 <= Limit())
      ensures ok ==> Text() == old(Text()) + StringText(s)
    {
      ghost var before, t := Text(), StringText(s);
      ok := Literal(s);
      if ok {
        assert forall k :: |before| <= k < |before + t| ==> (before + t)[k] == t[k - |before|];
        UpdateOffset(before + t);
      }
    }
  }

  /** `rest` is the text of the members from `k` on; and likewise from each later one. */
  ghost predicate Ahead(members: seq<Member>, k: nat, rest: seq<byte>, depth: nat, fmt: bool)
    decreases |members| - k, 1
  {
    AheadAt(members, k, rest, depth, fmt)
  }

  ghost predicate AheadAt(members: seq<Member>, k: nat, rest: seq<byte>, depth: nat, fmt: bool)
    decreases |members| - k, 0
  {
    && k <= |members| && AllMembersPrintable(members[k..]) && rest == RenderMembers(members[k..], depth, fmt)
    && (k < |members| ==>
          && AllMembersPrintable(members[k + 1..])
          && Ahead(members, k + 1, RenderMembers(members[k + 1..], depth, fmt), depth, fmt))
  }

  lemma {:induction false} AheadFrom(members: seq<Member>, k: nat, depth: nat, fmt: bool)
    requires k <= |members| && AllMembersPrintable(members[k..])
    ensures Ahead(members, k, RenderMembers(members[k..], depth, fmt), depth, fmt)
    decreases |members| - k
  {
    if k < |members| {
      assert members[k..][1..] == members[k + 1..];
      AheadFrom(members, k + 1, depth, fmt);
    }
    assert AheadAt(members, k, RenderMembers(members[k..], depth, fmt), depth, fmt);
  }

  lemma AheadFromStart(members: seq<Member>, depth: nat, fmt: bool)
    requires AllMembersPrintable(members)
    ensures Ahead(members, 0, RenderMembers(members, depth, fmt), depth, fmt)
  {
    assert members[0..] == members;
    AheadFrom(members, 0, depth, fmt);
  }

  lemma NothingAhead(members: seq<Member>, rest: seq<byte>, depth: nat, fmt: bool)
    requires Ahead(members, |members|, rest, depth, fmt)
    ensures rest == []
  {
    assert AheadAt(members, |members|, rest, depth, fmt);
    assert members[|members|..] == [];
  }

  lemma ArrayText(items: seq<Json>, depth: nat, fmt: bool)
    requires AllPrintable(items)
    ensures Render(Array(items), depth, fmt) == [OPEN_BRACKET] + RenderItems(items, depth + 1, fmt) + [CLOSE_BRACKET]
  {
    assert Render(Array(items), depth, fmt) == RenderNode(Array(items), depth, fmt);
  }

  lemma ObjectText(members: seq<Member>, depth: nat, fmt: bool)
    requires AllMembersPrintable(members)
    ensures Render(Object(members), depth, fmt) ==
            ObjectStart(fmt) + RenderMembers(members, depth + 1, fmt) + (Indent(depth, fmt) + [CLOSE_BRACE])
  {
    assert Render(Object(members), depth, fmt) == RenderNode(Object(members), depth, fmt);
    Regroup(ObjectStart(fmt) + RenderMembers(members, depth + 1, fmt), Indent(depth, fmt), [CLOSE_BRACE]);
  }

  lemma NextItem(items: seq<Json>, k: nat, depth: nat, fmt: bool, before: seq<byte>, text: seq<byte>, all: seq<byte>)
      returns (t: seq<byte>, tail: seq<byte>)
    requires k < |items| && AllPrintable(items[k..]) && text == RenderItems(items[k..], depth, fmt)
    requires before + text == all
    ensures Printable(items[k]) && AllPrintable(items[k + 1..])
    ensures t == Render(items[k], depth, fmt) && tail == RenderItems(items[k + 1..], depth, fmt)
    ensures k + 1 == |items| ==> tail == [] && before + t + tail == all && |before| + |t| == |all|
    ensures k + 1 < |items| ==>
              before + t + Separator(fmt) + tail == all && |before| + |t| + |Separator(fmt)| < |all|
  {
    assert items[k..][1..] == items[k + 1..] && items[k..][0] == items[k];
    t, tail := Render(items[k], depth, fmt), RenderItems(items[k + 1..], depth, fmt);
    if k + 1 < |items| {
      Between(before, t, Separator(fmt), tail);
    } else {
      assert before + t + [] == before + t;
    }
  }

  lemma NextMember(members: seq<Member>, k: nat, depth: nat, fmt: bool, before: seq<byte>, text: seq<byte>,
                   all: seq<byte>) returns (t: seq<byte>, tail: seq<byte>)
    requires k < |members| && AllMembersPrintable(members[k..]) && text == RenderMembers(members[k..], depth, fmt)
    requires before + text == all
    ensures NUL !in members[k].key && Printable(members[k].value) && AllMembersPrintable(members[k + 1..])
    ensures t == RenderMember(members[k], depth, fmt) && tail == RenderMembers(members[k + 1..], depth, fmt)
    ensures var end := MemberEnd(k + 1 == |members|, fmt);
            before + t + end + tail == all && |before| + |t| + |end| <= |all|
  {
    assert members[k..][1..] == members[k + 1..] && members[k..][0] == members[k];
    t, tail := RenderMember(members[k], depth, fmt), RenderMembers(members[k + 1..], depth, fmt);
    Between(before, t, MemberEnd(k + 1 == |members|, fmt), tail);
  }

  /** What comes before a member's value. */
  ghost function NameText(key: seq<byte>, depth: nat, fmt: bool): seq<byte> {
    Indent(depth, fmt) + StringText(key) + KeyEnd(fmt)
  }

  lemma Between(before: seq<byte>, open: seq<byte>, body: seq<byte>, close: seq<byte>)
    ensures before + open + body + close == before + (open + body + close)
  {
  }

  lemma Regroup(a: seq<byte>, b: seq<byte>, c: seq<byte>)
    ensures a + b + c == a + (b + c)
  {
  }

  // ---- entry points ----

  /** A caller's buffer of `length` bytes: enough means the text and two bytes, and then it holds the text. */
  method PrintPreallocated(item: Item, ghost t: Shape, ghost v: Json, buffer: array<byte>, length: int, fmt: bool)
      returns (ok: bool)
    requires Shows(item, t, v) && length <= INT_MAX && (length >= 0 ==> buffer.Length == length)
    modifies buffer
    ensures ok == (length >= |Render(v, 0, fmt)| + 2)
    ensures ok ==> buffer[..|Render(v, 0, fmt)| + 1] == Render(v, 0, fmt) + [NUL]
  {
    if length < 0 { return false; }
    var p := new Printer(buffer, true, fmt);
    ok := p.Value(item, t, v, Render(v, 0, fmt));
    assert [] + Render(v, 0, fmt) == Render(v, 0, fmt);
  }

  /** A growing buffer that starts at any size, even none. */
  method PrintBuffered(item: Item, ghost t: Shape, ghost v: Json, prebuffer: int, fmt: bool)
      returns (ok: bool, bytes: array<byte>)
    requires Shows(item, t, v) && prebuffer <= INT_MAX
    ensures ok == (prebuffer >= 0 && |Render(v, 0, fmt)| + 2 <= INT_MAX)
    ensures ok ==>
              && |Render(v, 0, fmt)| < bytes.Length
              && bytes[..|Render(v, 0, fmt)| + 1] == Render(v, 0, fmt) + [NUL]
  {
    bytes := new byte[if prebuffer < 0 then 0 else prebuffer];
    if prebuffer < 0 { return false, bytes; }
    var p := new Printer(bytes, false, fmt);
    ok := p.Value(item, t, v, Render(v, 0, fmt));
    bytes := p.buffer;
    assert [] + Render(v, 0, fmt) == Render(v, 0, fmt);
  }

  /** A growing buffer that starts at 256 bytes and is cut to the text and its terminator. */
  method Print(item: Item, ghost t: Shape, ghost v: Json, fmt: bool) returns (ok: bool, text: seq<byte>)
    requires Shows(item, t, v)
    ensures ok == (|Render(v, 0, fmt)| + 2 <= INT_MAX)
    ensures ok ==> text == Render(v, 0, fmt) + [NUL]
  {
    var bytes := new byte[256];
    var p := new Printer(bytes, false, fmt);
    ghost var all := Render(v, 0, fmt);
    assert [] + all == all;
    ok := p.Through(item, t, v, all);
    text := [];
    if ok {
      text := p.buffer[..p.offset] + [NUL];
    }
  }
}
