/**
 The two passes over a string literal. The first pass finds the closing quote and counts the escapes, which
 sizes the output; the second pass may split the text at other points, because a `\u` whose digits are bad
 swallows four bytes without looking at them. It still never writes more than the first pass allowed.
 */
module JsonString {
  import opened Bytes
  import opened JsonText
  import opened JsonParse
  import opened Unicode

  /** Whether the first pass, started at `s`, takes the byte at `k` for the backslash of an escape. */
  ghost predicate Lead(c: seq<byte>, s: nat, k: nat)
    requires s <= k < |c|
    decreases k
  {
    c[k] == BACKSLASH && (k == s || !Lead(c, s, k - 1))
  }

  /** The bytes of `c[s..k]` that the first pass does not count as skipped. */
  ghost function Weight(c: seq<byte>, s: nat, k: nat): nat
    requires s <= k <= |c|
    decreases k
  {
    if k == s then 0 else Weight(c, s, k - 1) + if Lead(c, s, k - 1) then 0 else 1
  }

  /** The first pass visits `k`, rather than stepping over it as the second byte of an escape. */
  ghost predicate Visited(c: seq<byte>, s: nat, k: nat)
    requires s <= k <= |c|
  {
    k == s || !Lead(c, s, k - 1)
  }

  /** Two adjacent bytes are never both skipped. */
  lemma {:induction false} WeightAtLeast(c: seq<byte>, s: nat, k: nat, n: nat)
    requires s <= k && k + n <= |c|
    ensures Weight(c, s, k + n) >= Weight(c, s, k) + n / 2
    decreases n
  {
    if n == 1 {
      assert Weight(c, s, k + 1) >= Weight(c, s, k);
    } else if n >= 2 {
      WeightAtLeast(c, s, k, n - 2);
      var m := k + n - 2;
      assert Weight(c, s, m + 2) >= Weight(c, s, m) + 1 by {
        assert Lead(c, s, m) ==> !Lead(c, s, m + 1);
        assert Weight(c, s, m + 2) == Weight(c, s, m + 1) + if Lead(c, s, m + 1) then 0 else 1;
        assert Weight(c, s, m + 1) == Weight(c, s, m) + if Lead(c, s, m) then 0 else 1;
      }
    }
  }

  /** How many output bytes the text up to `k` can account for. */
  ghost function Room(c: seq<byte>, s: nat, k: nat, end: nat): nat
    requires s <= k && s <= end <= |c|
  {
    Weight(c, s, if k <= end then k else end)
  }

  /** One unit of the second pass writes no more than the weight of the bytes it consumes. */
  lemma UnitFits(c: seq<byte>, s: nat, i: nat, end: nat)
    requires s <= i < end < |c| && Visited(c, s, end)
    ensures var r := Unit(c, i, end); r.Ok? ==> |r.value| <= Room(c, s, i + r.off, end) - Room(c, s, i, end)
  {
    var r := Unit(c, i, end);
    if r.Ok? {
      if c[i] != BACKSLASH {
        assert !Lead(c, s, i);
      } else if i + 1 == end {
        assert !Lead(c, s, i);
      } else if i + r.off <= end {
        WeightAtLeast(c, s, i, r.off);
      }
    }
  }

  lemma {:induction false} UnescapeFits(c: seq<byte>, s: nat, i: nat, end: nat, acc: seq<byte>)
    requires s <= i <= end + 1 && s <= end < |c| && Visited(c, s, end) && |acc| <= Room(c, s, i, end)
    ensures var r := Unescape(c, i, end, acc); r.Ok? ==> |r.value| <= Weight(c, s, end)
    decreases end + 1 - i
  {
    if i < end {
      UnitFits(c, s, i, end);
      var r := Unit(c, i, end);
      if r.Ok? { UnescapeFits(c, s, i + r.off, end, acc + r.value); }
    }
  }

  /** The first pass stops at a quote it visits, so the last byte before it counts. */
  lemma {:induction false} QuoteVisited(c: seq<byte>, s: nat, i: nat)
    requires s <= i <= |c| && Visited(c, s, i) && ClosingQuote(c, i).Ok?
    ensures Visited(c, s, ClosingQuote(c, i).off)
    decreases |c| - i
  {
    if c[i] == QUOTE {
    } else if c[i] == BACKSLASH {
      assert Lead(c, s, i);
      QuoteVisited(c, s, i + 2);
    } else {
      QuoteVisited(c, s, i + 1);
    }
  }

  /** The escapes the first pass counts from `i` up to the closing quote. */
  function Skipped(c: seq<byte>, i: nat): (n: nat)
    requires i <= |c|
    decreases |c| - i
  {
    if i == |c| || c[i] == QUOTE then 0
    else if c[i] == BACKSLASH then if i + 1 >= |c| then 0 else 1 + Skipped(c, i + 2)
    else Skipped(c, i + 1)
  }

  lemma {:induction false} SkippedIsWeight(c: seq<byte>, s: nat, i: nat)
    requires s <= i <= |c| && Visited(c, s, i) && ClosingQuote(c, i).Ok?
    ensures var end := ClosingQuote(c, i).off;
            Weight(c, s, end) == Weight(c, s, i) + (end - i) - Skipped(c, i)
    decreases |c| - i
  {
    if c[i] == QUOTE {
    } else if c[i] == BACKSLASH {
      assert Lead(c, s, i) && !Lead(c, s, i + 1);
      assert Weight(c, s, i + 2) == Weight(c, s, i + 1) + 1 == Weight(c, s, i) + 1;
      SkippedIsWeight(c, s, i + 2);
    } else {
      SkippedIsWeight(c, s, i + 1);
    }
  }

  /**
   Whatever the bytes of the literal at `off` are, what the second pass writes, terminator included, fits the
   `end - off - skipped + 1` bytes that the first pass allocates.
   */
  lemma StringFits(c: seq<byte>, off: nat)
    requires off < |c| && ClosingQuote(c, off + 1).Ok?
    ensures var end := ClosingQuote(c, off + 1).off;
            var r := Unescape(c, off + 1, end, []);
            r.Ok? ==> |r.value| + 1 < (end - off - Skipped(c, off + 1)) + 1
  {
    var s := off + 1;
    QuoteVisited(c, s, s);
    SkippedIsWeight(c, s, s);
    UnescapeFits(c, s, s, ClosingQuote(c, s).off, []);
  }

  /** A literal the two passes split differently: the second takes the escaped quote for a hex digit. */
  lemma PassesDisagree()
    ensures var c: seq<byte> := [QUOTE, BACKSLASH, LETTER_U, BACKSLASH, QUOTE, 0x78, 0x78, QUOTE];
            && ClosingQuote(c, 1) == Ok((), 7)
            && Unescape(c, 1, 7, []) == Ok([0], 7)
  {
    var c: seq<byte> := [QUOTE, BACKSLASH, LETTER_U, BACKSLASH, QUOTE, 0x78, 0x78, QUOTE];
    assert ClosingQuote(c, 7) == Ok((), 7);
    assert ClosingQuote(c, 5) == ClosingQuote(c, 6) == ClosingQuote(c, 7);
    assert ClosingQuote(c, 3) == ClosingQuote(c, 5);
    assert Hex4(c, 3) == 0;
    assert Unit(c, 1, 7) == Ok([0], 6);
    assert [] + [0] == [0];
    assert Unescape(c, 7, 7, [0]) == Ok([0], 7);
  }

  // ---- the escapes of RFC 8259, section 7 ----

  /** Letters of the two-character escapes and the bytes they stand for: " \\ / b f n r t. */
  const ESCAPES: map<byte, byte> := map[0x22 := 0x22, 0x5C := 0x5C, 0x2F := 0x2F, 0x62 := 0x08, 0x66 := 0x0C,
                                        0x6E := 0x0A, 0x72 := 0x0D, 0x74 := 0x09]

  /** Apart from `\u`, exactly the standard's escapes are accepted, each with its meaning. */
  lemma StandardEscapes(c: seq<byte>, i: nat, end: nat)
    requires i < end < |c| && c[i] == BACKSLASH && c[i + 1] != LETTER_U
    ensures var r := Unit(c, i, end);
            && (r.Ok? <==> c[i + 1] in ESCAPES)
            && (r.Ok? ==> r.value == [ESCAPES[c[i + 1]]] && r.off == 2)
  {
    var b := c[i + 1];
    assert ESCAPES.Keys == {0x22, 0x5C, 0x2F, 0x62, 0x66, 0x6E, 0x72, 0x74};
    assert b in ESCAPES <==> Unescaped(b).Ok?;
  }

  const LOWER_DIGITS: seq<byte> :=
    [0x30, 0x31, 0x32, 0x33, 0x34, 0x35, 0x36, 0x37, 0x38, 0x39, 0x61, 0x62, 0x63, 0x64, 0x65, 0x66]
  const UPPER_DIGITS: seq<byte> :=
    [0x30, 0x31, 0x32, 0x33, 0x34, 0x35, 0x36, 0x37, 0x38, 0x39, 0x41, 0x42, 0x43, 0x44, 0x45, 0x46]

  /** A byte is a hex digit of value n exactly if it is the n-th in one of the two rows of digits. */
  lemma HexValueIs(b: byte, n: nat)
    requires n < 16
    ensures HexValue(b).Ok? && HexValue(b).value == n <==> b == LOWER_DIGITS[n] || b == UPPER_DIGITS[n]
  {
    var d: int := b;
    assert LOWER_DIGITS[n] as int == if n < 10 then 0x30 + n else 0x57 + n;
    assert UPPER_DIGITS[n] as int == if n < 10 then 0x30 + n else 0x37 + n;
  }

  // ---- what the second pass emits for `\u` escapes ----

  /** Every accepted `\u` escape or pair of escapes comes out as the well-formed UTF-8 of its code point. */
  lemma EscapesAreUtf8(c: seq<byte>, i: nat, end: nat)
    requires i < end < |c| && c[i] == BACKSLASH && c[i + 1] == LETTER_U
    ensures var u, r := Utf16At(c, i, end), Unit(c, i, end);
            && u.Ok? == r.Ok?
            && (r.Ok? ==> IsScalar(u.value) && DecodeUtf8(r.value) == Some(u.value))
  {
    var u := Utf16At(c, i, end);
    if u.Ok? { Utf8Decodes(u.value); }
  }

  // ---- `\u` escapes in either case, and the pair for a code point beyond the first plane (RFC 8259, section 7) ----

  predicate IsHexDigit(b: byte, n: nat) {
    n < 16 && (b == LOWER_DIGITS[n] || b == UPPER_DIGITS[n])
  }

  /** The six bytes at `i` are a `\u` escape with the digits of `n`. */
  predicate EscapeAt(c: seq<byte>, i: nat, n: nat) {
    && i + 6 <= |c| && c[i] == BACKSLASH && c[i + 1] == LETTER_U
    && IsHexDigit(c[i + 2], n / 0x1000) && IsHexDigit(c[i + 3], n / 0x100 % 16)
    && IsHexDigit(c[i + 4], n / 0x10 % 16) && IsHexDigit(c[i + 5], n % 16)
  }

  /** The code point `n` is written at `i`: one escape, or the two of its surrogate pair. */
  predicate CodeAt(c: seq<byte>, i: nat, n: CodePoint)
    ensures CodeAt(c, i, n) ==> i + CodeLength(n) <= |c|
  {
    if n < 0x1_0000 then EscapeAt(c, i, n)
    else EscapeAt(c, i, 0xD800 + HighBits(n)) && EscapeAt(c, i + 6, 0xDC00 + LowBits(n))
  }

  function HighBits(n: CodePoint): nat
    requires n >= 0x1_0000
  {
    (n - 0x1_0000) / 0x400
  }

  function LowBits(n: CodePoint): nat
    requires n >= 0x1_0000
  {
    (n - 0x1_0000) % 0x400
  }

  function CodeLength(n: CodePoint): nat {
    if n < 0x1_0000 then 6 else 12
  }

  lemma Hex4Back(c: seq<byte>, i: nat, n: nat)
    requires EscapeAt(c, i, n)
    ensures Hex4(c, i + 2) == n
  {
    HexValueIs(c[i + 2], n / 0x1000);
    HexValueIs(c[i + 3], n / 0x100 % 16);
    HexValueIs(c[i + 4], n / 0x10 % 16);
    HexValueIs(c[i + 5], n % 16);
    var a, b := n / 0x10, n / 0x100;
    assert a / 16 == b && b / 16 == n / 0x1000;
  }

  /** Every scalar value written as `\u` escapes, in either case, parses to its UTF-8. */
  lemma CodeBack(c: seq<byte>, i: nat, end: nat, n: CodePoint)
    requires IsScalar(n) && CodeAt(c, i, n) && i + CodeLength(n) <= end < |c|
    ensures Unit(c, i, end) == Ok(Utf8(n), CodeLength(n))
  {
    if n < 0x1_0000 {
      SingleBack(c, i, end, n);
    } else {
      Halves(n);
      PairBack(c, i, end, n, HighBits(n), LowBits(n));
    }
  }

  lemma Halves(n: CodePoint)
    requires n >= 0x1_0000
    ensures HighBits(n) < 0x400 && LowBits(n) < 0x400 && n == 0x1_0000 + HighBits(n) * 0x400 + LowBits(n)
  {
  }

  lemma UnitOfCode(c: seq<byte>, i: nat, end: nat, n: CodePoint, used: nat)
    requires i < end < |c| && c[i] == BACKSLASH && c[i + 1] == LETTER_U && Utf16At(c, i, end) == Ok(n, used)
    ensures Unit(c, i, end) == Ok(Utf8(n), used)
  {
  }

  lemma SingleBack(c: seq<byte>, i: nat, end: nat, n: nat)
    requires n < 0x1_0000 && IsScalar(n) && EscapeAt(c, i, n) && i + 6 <= end < |c|
    ensures Unit(c, i, end) == Ok(Utf8(n), 6)
  {
    Hex4Back(c, i, n);
    assert Utf16At(c, i, end) == Ok(n, 6);
  }

  lemma PairBack(c: seq<byte>, i: nat, end: nat, n: CodePoint, high: nat, low: nat)
    requires high < 0x400 && low < 0x400 && i + 12 <= end < |c| && n == 0x1_0000 + high * 0x400 + low
    requires EscapeAt(c, i, 0xD800 + high) && EscapeAt(c, i + 6, 0xDC00 + low)
    ensures Unit(c, i, end) == Ok(Utf8(n), 12)
  {
    Hex4Back(c, i, 0xD800 + high);
    Hex4Back(c, i + 6, 0xDC00 + low);
    TwoHalves(c, i, end, n, high, low);
    UnitOfCode(c, i, end, n, 12);
  }

  lemma TwoHalves(c: seq<byte>, i: nat, end: nat, n: CodePoint, high: nat, low: nat)
    requires high < 0x400 && low < 0x400 && i + 12 <= end <= |c| && c[i + 6] == BACKSLASH && c[i + 7] == LETTER_U
    requires Hex4(c, i + 2) == 0xD800 + high && Hex4(c, i + 8) == 0xDC00 + low
    requires n == 0x1_0000 + high * 0x400 + low
    ensures Utf16At(c, i, end) == Ok(n, 12)
  {
  }
}
