/**
 The tokens of RFC 8259 that carry contents: which texts are a number or a string literal, what they denote, and
 that the parser reads every one of them, whatever its spelling, as what it denotes.
 */
module JsonTokens {
  import opened Bytes
  import opened JsonText
  import opened JsonParse
  import opened JsonString
  import opened Unicode

  lemma ReadSplit(c: seq<byte>, off: nat, a: seq<byte>, b: seq<byte>)
    requires CanRead(c, off, a + b)
    ensures CanRead(c, off, a) && CanRead(c, off + |a|, b)
  {
    var t := c[off..off + |a| + |b|];
    assert c[off..off + |a|] == t[..|a|] == a;
    assert c[off + |a|..off + |a| + |b|] == t[|a|..] == b;
  }

  lemma ReadByte(c: seq<byte>, off: nat, t: seq<byte>, i: nat)
    requires CanRead(c, off, t) && i < |t|
    ensures c[off + i] == t[i]
  {
    assert c[off..off + |t|][i] == c[off + i];
  }

  /** What may follow a value: nothing a number would run into. */
  ghost predicate Ends(c: seq<byte>, p: nat) {
    p == |c| || (p < |c| && !IsNumberByte(c[p]))
  }

  // ---- numbers ----

  lemma {:induction false} NumberRunIs(c: seq<byte>, off: nat, n: nat, limit: nat)
    requires off + n <= |c| && n <= limit
    requires forall k :: off <= k < off + n ==> IsNumberByte(c[k])
    requires off + n == |c| || !IsNumberByte(c[off + n])
    ensures NumberRun(c, off, limit) == n
    decreases n
  {
    if n > 0 { NumberRunIs(c, off + 1, n - 1, limit - 1); }
  }

  ghost predicate AllDigits(t: seq<byte>) {
    forall k :: 0 <= k < |t| ==> IsDigit(t[k])
  }

  /** A run of digits ends where something else begins. */
  lemma {:induction false} DigitRunStops(t: seq<byte>, i: nat, n: nat)
    requires i + n <= |t| && (forall k :: i <= k < i + n ==> IsDigit(t[k])) && (i + n == |t| || !IsDigit(t[i + n]))
    ensures DigitRun(t, i) == n
    decreases n
  {
    if n > 0 { DigitRunStops(t, i + 1, n - 1); }
  }

  lemma DigitsAre(t: seq<byte>, i: nat, j: nat, d: seq<byte>)
    requires i <= j <= |t| && t[i..j] == d && AllDigits(d) && (j == |t| || !IsDigit(t[j]))
    ensures DigitRun(t, i) == |d| && Digits(t, i) == d
  {
    assert forall k :: i <= k < j ==> t[k] == d[k - i];
    DigitRunStops(t, i, |d|);
  }

  datatype Sign = NoSign | Plus | Minus

  function SignText(sign: Sign): seq<byte> {
    match sign case NoSign => [] case Plus => [PLUS] case Minus => [MINUS]
  }

  /**
   A number by the grammar of RFC 8259, section 6, leading zeros aside: `frac` and `exp` are empty when there is
   no fraction or exponent, and `letter` is the e or E.
   */
  datatype Numeral = Numeral(negative: bool, whole: seq<byte>, frac: seq<byte>, exp: seq<byte>, letter: byte,
                             sign: Sign)

  ghost predicate IsNumeral(n: Numeral) {
    && AllDigits(n.whole) && AllDigits(n.frac) && AllDigits(n.exp)
    && n.whole != [] && (n.letter == 0x65 || n.letter == 0x45)
  }

  function NumeralText(n: Numeral): (t: seq<byte>) {
    (if n.negative then [MINUS] else []) + n.whole + (if n.frac == [] then [] else [DOT] + n.frac) +
    (if n.exp == [] then [] else ExponentText(n))
  }

  function ExponentText(n: Numeral): seq<byte> {
    [n.letter] + SignText(n.sign) + n.exp
  }

  /** The decimal it denotes. */
  ghost function Denoted(n: Numeral): Decimal
    requires IsNumeral(n)
  {
    Decimal((if n.negative then -1 else 1) * DigitsValue(n.whole + n.frac),
            (if n.sign.Minus? then -1 else 1) * DigitsValue(n.exp) - |n.frac|)
  }

  lemma ExponentBack(t: seq<byte>, i: nat, n: Numeral)
    requires IsNumeral(n) && n.exp != [] && i <= |t| && t[i..] == ExponentText(n)
    ensures var r := ExponentAt(t, i);
            r.used == |t| - i && r.value == (if n.sign.Minus? then -1 else 1) * DigitsValue(n.exp)
  {
    var e := t[i..];
    assert forall k :: i <= k < |t| ==> t[k] == e[k - i];
    var j := i + 1 + |SignText(n.sign)|;
    assert t[j..|t|] == n.exp;
    DigitsAre(t, j, |t|, n.exp);
  }

  /** Digits, and a dot with more digits or neither. */
  lemma StrtodParts(t: seq<byte>, i: nat, j: nat, k: nat, whole: seq<byte>, frac: seq<byte>)
    requires i == IsSign(t, 0) && i <= j <= k <= |t| && t[i..j] == whole && whole != []
    requires AllDigits(whole) && AllDigits(frac) && (k == |t| || !IsDigit(t[k]))
    requires frac == [] ==> k == j && (j == |t| || t[j] != DOT)
    requires frac != [] ==> j < |t| && t[j] == DOT && k == j + 1 + |frac| && t[j + 1..k] == frac
    ensures Strtod(t) == DecimalAt(t, i == 1 && t[0] == MINUS, whole + frac, |frac|, k)
  {
    DigitsAre(t, i, j, whole);
    if frac == [] { assert whole + frac == whole; } else { DigitsAre(t, j + 1, k, frac); }
  }

  /** Every number of the grammar is read whole, as the decimal it denotes. */
  lemma StrtodReads(n: Numeral)
    requires IsNumeral(n)
    ensures var t := NumeralText(n); var r := Strtod(t); r.Ok? && r.off == |t| && r.value == Denoted(n)
  {
    var t := NumeralText(n);
    var i := if n.negative then 1 else 0;
    var j := i + |n.whole|;
    var k := if n.frac == [] then j else j + 1 + |n.frac|;
    NumeralParts(n, t, i, j, k);
    StrtodParts(t, i, j, k, n.whole, n.frac);
    DecimalBack(n, t, k);
  }

  lemma DecimalBack(n: Numeral, t: seq<byte>, k: nat)
    requires IsNumeral(n) && k <= |t| && t[k..] == if n.exp == [] then [] else ExponentText(n)
    ensures var r := DecimalAt(t, n.negative, n.whole + n.frac, |n.frac|, k);
            r.off == |t| && r.value == Denoted(n)
  {
    if n.exp == [] {
      assert k == |t|;
    } else {
      ExponentBack(t, k, n);
    }
  }

  lemma NumeralParts(n: Numeral, t: seq<byte>, i: nat, j: nat, k: nat)
    requires IsNumeral(n) && t == NumeralText(n)
    requires i == (if n.negative then 1 else 0) && j == i + |n.whole|
    requires k == if n.frac == [] then j else j + 1 + |n.frac|
    ensures i <= j <= k <= |t| && t[i..j] == n.whole && (n.negative ==> t[0] == MINUS) && IsSign(t, 0) == i
    ensures n.frac != [] ==> t[j] == DOT && t[j + 1..k] == n.frac
    ensures t[k..] == if n.exp == [] then [] else ExponentText(n)
    ensures k == |t| || t[k] == n.letter
  {
    var a: seq<byte> := if n.negative then [MINUS] else [];
    var b := if n.frac == [] then [] else [DOT] + n.frac;
    var c := if n.exp == [] then [] else ExponentText(n);
    FourParts(a, n.whole, b, c, t, i, j, k);
    if n.frac != [] { SecondOf(t, j, k, DOT, n.frac); }
  }

  lemma FourParts<T>(a: seq<T>, w: seq<T>, b: seq<T>, c: seq<T>, t: seq<T>, i: nat, j: nat, k: nat)
    requires t == a + w + b + c && i == |a| && j == i + |w| && k == j + |b|
    ensures k <= |t| && t[i..j] == w && t[j..k] == b && t[k..] == c
    ensures (i > 0 ==> t[0] == a[0]) && (i == 0 && w != [] ==> t[0] == w[0]) && (c != [] ==> t[k] == c[0])
  {
  }

  lemma SecondOf<T>(t: seq<T>, j: nat, k: nat, x: T, rest: seq<T>)
    requires j <= k <= |t| && t[j..k] == [x] + rest
    ensures t[j] == x && t[j + 1..k] == rest
  {
    assert t[j] == t[j..k][0];
    assert t[j + 1..k] == t[j..k][1..];
  }

  lemma NumeralBytes(n: Numeral, t: seq<byte>)
    requires IsNumeral(n) && t == NumeralText(n)
    ensures forall k :: 0 <= k < |t| ==> IsNumberByte(t[k])
    ensures t[0] == MINUS || IsDigit(t[0])
  {
  }

  lemma NumberTextBack(c: seq<byte>, off: nat, t: seq<byte>)
    requires |t| <= 63 && (forall k :: 0 <= k < |t| ==> IsNumberByte(t[k]))
    requires CanRead(c, off, t) && Ends(c, off + |t|)
    ensures NumberText(c, off) == t
  {
    forall k | off <= k < off + |t| ensures IsNumberByte(c[k]) {
      ReadByte(c, off, t, k - off);
    }
    NumberRunIs(c, off, |t|, 63);
  }

  /** The parser reads a number whole, as the decimal it denotes, exactly if it has at most 63 characters. */
  lemma NumberBack(c: seq<byte>, off: nat, n: Numeral, t: seq<byte>)
    requires IsNumeral(n) && t == NumeralText(n) && CanRead(c, off, t) && Ends(c, off + |t|)
    ensures var r := ParseNumber(c, off);
            && (r.Ok? && r.off == off + |t| <==> |t| <= 63)
            && (|t| <= 63 ==> r.value == Number(Denoted(n)))
  {
    if |t| <= 63 {
      NumeralBytes(n, t);
      NumberTextBack(c, off, t);
      StrtodReads(n);
    }
  }

  /** `c[i..j]` is a number that denotes `d`, short enough for the parser's buffer. */
  ghost predicate SpellsNumber(d: Decimal, c: seq<byte>, i: nat, j: nat) {
    exists n :: NumeralAt(n, d, c, i, j)
  }

  ghost predicate NumeralAt(n: Numeral, d: Decimal, c: seq<byte>, i: nat, j: nat) {
    var t := NumeralText(n);
    IsNumeral(n) && CanRead(c, i, t) && j == i + |t| && |t| <= 63 && d == Denoted(n)
  }

  ghost predicate ReadsNumber(d: Decimal, c: seq<byte>, i: nat, j: nat) {
    && i < |c| && (c[i] == MINUS || IsDigit(c[i]))
    && var r := ParseNumber(c, i); r.Ok? && r.value == Number(d) && r.off == j
  }

  lemma NumberFirst(d: Decimal, c: seq<byte>, i: nat, j: nat)
    requires SpellsNumber(d, c, i, j)
    ensures i < |c| && (c[i] == MINUS || IsDigit(c[i]))
  {
    var n :| NumeralAt(n, d, c, i, j);
    var t := NumeralText(n);
    NumeralBytes(n, t);
    ReadByte(c, i, t, 0);
  }

  /** Every number of the grammar that fits the buffer parses to the decimal it denotes. */
  lemma NumeralBack(d: Decimal, c: seq<byte>, i: nat, j: nat)
    requires SpellsNumber(d, c, i, j) && Ends(c, j)
    ensures ReadsNumber(d, c, i, j)
  {
    var n :| NumeralAt(n, d, c, i, j);
    NumberFirst(d, c, i, j);
    OneNumeralBack(n, d, c, i, j);
  }

  lemma OneNumeralBack(n: Numeral, d: Decimal, c: seq<byte>, i: nat, j: nat)
    requires NumeralAt(n, d, c, i, j) && Ends(c, j) && i < |c| && (c[i] == MINUS || IsDigit(c[i]))
    ensures ReadsNumber(d, c, i, j)
  {
    NumberBack(c, i, n, NumeralText(n));
  }

  function IntNumeral(n: int): Numeral {
    Numeral(n < 0, NatText(if n < 0 then -n else n), [], [], 0x65, NoSign)
  }

  /** What the printer writes for an int is such a number. */
  lemma IntSpells(n: int, c: seq<byte>, i: nat, j: nat)
    requires INT_MIN <= n <= INT_MAX && CanRead(c, i, IntText(n)) && j == i + |IntText(n)|
    ensures SpellsNumber(Decimal(n, 0), c, i, j)
  {
    var m, digits := IntNumeral(n), NatText(if n < 0 then -n else n);
    assert digits + [] == digits;
    assert NumeralText(m) == IntText(n);
    NatTextValue(if n < 0 then -n else n);
    IntTextLength(n);
    assert Denoted(m) == Decimal(n, 0);
    assert NumeralAt(m, Decimal(n, 0), c, i, j);
  }

  // ---- strings ----

  /**
   A character of a string literal by the grammar of RFC 8259, section 7.
   Any byte but `"` and `\` may stand for itself.
   */
  datatype Char = Plain(b: byte) | Short(letter: byte) | Code(n: CodePoint)

  predicate IsChar(ch: Char) {
    match ch
    case Plain(b) => b != QUOTE && b != BACKSLASH
    case Short(letter) => letter in ESCAPES
    case Code(n) => IsScalar(n)
  }

  /** The bytes it stands for. */
  function Meaning(ch: Char): seq<byte> {
    match ch
    case Plain(b) => [b]
    case Short(letter) => if letter in ESCAPES then [ESCAPES[letter]] else []
    case Code(n) => Utf8(n)
  }

  function Length(ch: Char): (n: nat)
    ensures n >= 1
  {
    match ch case Plain(_) => 1 case Short(_) => 2 case Code(n) => CodeLength(n)
  }

  ghost predicate CharAt(ch: Char, c: seq<byte>, i: nat)
    ensures CharAt(ch, c, i) ==> i + Length(ch) <= |c|
  {
    && IsChar(ch)
    && match ch
      case Plain(b) => Sees(c, i, b)
      case Short(letter) => Sees(c, i, BACKSLASH) && Sees(c, i + 1, letter)
      case Code(n) => CodeAt(c, i, n)
  }

  /** `c[i..end]` is made of characters that together stand for `s`. */
  ghost predicate CharsAt(s: seq<byte>, c: seq<byte>, i: nat, end: nat)
    decreases end - i, 2
  {
    MoreCharsAt(s, c, i, end)
  }

  ghost predicate MoreCharsAt(s: seq<byte>, c: seq<byte>, i: nat, end: nat)
    decreases end - i, 1
  {
    FirstCharAt(s, c, i, end)
  }

  ghost predicate FirstCharAt(s: seq<byte>, c: seq<byte>, i: nat, end: nat)
    decreases end - i, 0
  {
    if i >= end then i == end && s == [] else exists ch :: CharAt(ch, c, i) && RestAt(ch, s, c, i, end)
  }

  ghost predicate RestAt(ch: Char, s: seq<byte>, c: seq<byte>, i: nat, end: nat)
    requires i < end
    decreases end - i, 0, 0
  {
    i + Length(ch) <= end && Meaning(ch) <= s && CharsAt(s[|Meaning(ch)|..], c, i + Length(ch), end)
  }

  /** The second pass turns a character into what it stands for, and both passes step over exactly that character. */
  lemma CharBack(ch: Char, c: seq<byte>, i: nat, n: nat, end: nat)
    requires CharAt(ch, c, i) && n == i + Length(ch) <= end < |c|
    ensures StepsTo(c, i, n, end, Meaning(ch))
  {
    match ch
    case Plain(_) =>
    case Short(letter) =>
      assert LETTER_U !in ESCAPES;
      StandardEscapes(c, i, end);
    case Code(k) =>
      CodeBack(c, i, end, k);
      StepsOverCode(c, i, k);
  }

  lemma StepsOverCode(c: seq<byte>, i: nat, n: CodePoint)
    requires CodeAt(c, i, n)
    ensures ClosingQuote(c, i) == ClosingQuote(c, i + CodeLength(n))
  {
    if n < 0x1_0000 {
      StepsOver(c, i, n);
    } else {
      StepsOver(c, i, 0xD800 + HighBits(n));
      StepsOver(c, i + 6, 0xDC00 + LowBits(n));
    }
  }

  lemma HexIsPlain(b: byte, n: nat)
    requires IsHexDigit(b, n)
    ensures b != QUOTE && b != BACKSLASH
  {
  }

  lemma StepsOver(c: seq<byte>, i: nat, n: nat)
    requires EscapeAt(c, i, n)
    ensures ClosingQuote(c, i) == ClosingQuote(c, i + 6)
  {
    HexIsPlain(c[i + 2], n / 0x1000);
    HexIsPlain(c[i + 3], n / 0x100 % 16);
    HexIsPlain(c[i + 4], n / 0x10 % 16);
    HexIsPlain(c[i + 5], n % 16);
    assert ClosingQuote(c, i + 2) == ClosingQuote(c, i + 3);
    assert ClosingQuote(c, i + 3) == ClosingQuote(c, i + 4);
    assert ClosingQuote(c, i + 4) == ClosingQuote(c, i + 5);
  }

  lemma {:induction false} CharsBack(s: seq<byte>, c: seq<byte>, i: nat, end: nat, acc: seq<byte>, all: seq<byte>)
    requires i <= end && CharsAt(s, c, i, end) && Sees(c, end, QUOTE) && all == acc + s
    ensures ClosesAt(c, i, end) && Unescapes(c, i, end, acc, all)
    decreases end - i
  {
    assert MoreCharsAt(s, c, i, end);
    assert FirstCharAt(s, c, i, end);
    if i == end {
      assert acc + [] == acc;
    } else {
      var n, bytes, rest := FirstCharBack(s, c, i, end);
      Regrouped(acc, bytes, rest);
      CharsBack(rest, c, n, end, acc + bytes, all);
      OneBefore(c, i, n, end, bytes, acc, all);
    }
  }

  lemma Regrouped(a: seq<byte>, b: seq<byte>, d: seq<byte>)
    ensures a + b + d == a + (b + d)
  {
  }

  /** The second pass reads `bytes` off `c[i..n]`, and the first pass steps over exactly that. */
  ghost predicate StepsTo(c: seq<byte>, i: nat, n: nat, end: nat, bytes: seq<byte>) {
    && i < n <= end < |c| && ClosingQuote(c, i) == ClosingQuote(c, n)
    && var r := Unit(c, i, end); r.Ok? && r.value == bytes && i + r.off == n
  }

  lemma FirstCharBack(s: seq<byte>, c: seq<byte>, i: nat, end: nat) returns (n: nat, bytes: seq<byte>, rest: seq<byte>)
    requires i < end < |c| && FirstCharAt(s, c, i, end)
    ensures StepsTo(c, i, n, end, bytes) && s == bytes + rest && CharsAt(rest, c, n, end)
  {
    var ch := FirstChar(s, c, i, end);
    n, bytes := i + Length(ch), Meaning(ch);
    rest := Drop(s, |bytes|);
    RestIs(ch, s, c, i, n, end, bytes, rest);
    CharBack(ch, c, i, n, end);
  }

  lemma FirstChar(s: seq<byte>, c: seq<byte>, i: nat, end: nat) returns (ch: Char)
    requires i < end && FirstCharAt(s, c, i, end)
    ensures CharAt(ch, c, i) && RestAt(ch, s, c, i, end)
  {
    ch :| CharAt(ch, c, i) && RestAt(ch, s, c, i, end);
  }

  lemma RestIs(ch: Char, s: seq<byte>, c: seq<byte>, i: nat, n: nat, end: nat, bytes: seq<byte>, rest: seq<byte>)
    requires i < end && RestAt(ch, s, c, i, end) && n == i + Length(ch) && bytes == Meaning(ch)
    requires rest == Drop(s, |bytes|)
    ensures s == bytes + rest && n <= end && CharsAt(rest, c, n, end)
  {
  }

  function Drop(s: seq<byte>, n: nat): seq<byte> {
    if n <= |s| then s[n..] else []
  }

  ghost predicate ClosesAt(c: seq<byte>, i: nat, end: nat) {
    i <= |c| && ClosingQuote(c, i).Ok? && ClosingQuote(c, i).off == end
  }

  ghost predicate Unescapes(c: seq<byte>, i: nat, end: nat, acc: seq<byte>, all: seq<byte>) {
    i <= end + 1 && end < |c| && var r := Unescape(c, i, end, acc); r.Ok? && r.value == all
  }

  lemma OneBefore(c: seq<byte>, i: nat, n: nat, end: nat, bytes: seq<byte>, acc: seq<byte>, all: seq<byte>)
    requires StepsTo(c, i, n, end, bytes) && ClosesAt(c, n, end) && Unescapes(c, n, end, acc + bytes, all)
    ensures ClosesAt(c, i, end) && Unescapes(c, i, end, acc, all)
  {
    assert Unescape(c, i, end, acc) == Unescape(c, n, end, acc + bytes);
  }

  /** `c[i..j]` is a string literal that stands for `s`. */
  ghost predicate SpellsString(s: seq<byte>, c: seq<byte>, i: nat, j: nat) {
    i + 2 <= j && Sees(c, i, QUOTE) && Sees(c, j - 1, QUOTE) && CharsAt(s, c, i + 1, j - 1)
  }

  ghost predicate ReadsString(s: seq<byte>, c: seq<byte>, i: nat, j: nat) {
    i <= |c| && var r := ParseString(c, i); r.Ok? && r.value == s && r.off == j
  }

  /** Every string literal of the grammar parses to what it stands for. */
  lemma StringBack(s: seq<byte>, c: seq<byte>, i: nat, j: nat)
    requires SpellsString(s, c, i, j)
    ensures ReadsString(s, c, i, j)
  {
    assert [] + s == s;
    CharsBack(s, c, i + 1, j - 1, [], s);
    PassesAgree(c, i, j - 1, s);
  }

  lemma PassesAgree(c: seq<byte>, off: nat, end: nat, s: seq<byte>)
    requires Sees(c, off, QUOTE) && ClosesAt(c, off + 1, end) && Unescapes(c, off + 1, end, [], s)
    ensures ReadsString(s, c, off, end + 1)
  {
  }

  /** The character the printer writes for a byte. */
  function Printed(b: byte): (ch: Char)
    requires b != NUL
    ensures IsChar(ch) && Meaning(ch) == [b]
  {
    if ShortEscape(b) != NUL then Short(ShortEscape(b)) else if b < 32 then Code(b) else Plain(b)
  }

  lemma PrintedAt(b: byte, c: seq<byte>, i: nat)
    requires b != NUL && CanRead(c, i, EscapeByte(b))
    ensures CharAt(Printed(b), c, i) && Length(Printed(b)) == |EscapeByte(b)|
  {
    var t := EscapeByte(b);
    ReadByte(c, i, t, 0);
    if |t| > 1 { ReadByte(c, i, t, 1); }
    if |t| > 2 {
      ReadByte(c, i, t, 2);
      ReadByte(c, i, t, 3);
      ReadByte(c, i, t, 4);
      ReadByte(c, i, t, 5);
      LowerDigit(b / 16);
      LowerDigit(b % 16);
      assert EscapeAt(c, i, b);
    }
  }

  lemma LowerDigit(n: nat)
    requires n < 16
    ensures HexDigit(n) == LOWER_DIGITS[n] && LOWER_DIGITS[0] == ZERO
  {
  }

  lemma {:induction false} EscapeSpells(s: seq<byte>, c: seq<byte>, i: nat, end: nat)
    requires NUL !in s && CanRead(c, i, Escape(s)) && end == i + |Escape(s)|
    ensures CharsAt(s, c, i, end)
    decreases s
  {
    if s == [] {
      assert FirstCharAt(s, c, i, end);
      assert MoreCharsAt(s, c, i, end);
    } else {
      var n := i + |EscapeByte(s[0])|;
      ReadSplit(c, i, EscapeByte(s[0]), Escape(s[1..]));
      EscapeSpells(s[1..], c, n, end);
      PrintedSpells(s, c, i, n, end);
    }
  }

  lemma PrintedSpells(s: seq<byte>, c: seq<byte>, i: nat, n: nat, end: nat)
    requires s != [] && s[0] != NUL && CanRead(c, i, EscapeByte(s[0])) && n == i + |EscapeByte(s[0])| <= end
    requires CharsAt(s[1..], c, n, end)
    ensures CharsAt(s, c, i, end)
  {
    PrintedAt(s[0], c, i);
    PackChar(Printed(s[0]), s, c, i, n, end);
  }

  lemma PackChar(ch: Char, s: seq<byte>, c: seq<byte>, i: nat, n: nat, end: nat)
    requires s != [] && CharAt(ch, c, i) && n == i + Length(ch) <= end && Meaning(ch) == [s[0]]
    requires CharsAt(s[1..], c, n, end)
    ensures CharsAt(s, c, i, end)
  {
    assert RestAt(ch, s, c, i, end);
    assert FirstCharAt(s, c, i, end);
    assert MoreCharsAt(s, c, i, end);
  }

  lemma LiteralParts(s: seq<byte>, c: seq<byte>, i: nat, j: nat)
    requires CanRead(c, i, StringText(s)) && j == i + |StringText(s)|
    ensures i + 2 <= j && Sees(c, i, QUOTE) && Sees(c, j - 1, QUOTE)
    ensures CanRead(c, i + 1, Escape(s)) && j - 1 == i + 1 + |Escape(s)|
  {
    ReadSplit(c, i, [QUOTE] + Escape(s), [QUOTE]);
    ReadSplit(c, i, [QUOTE], Escape(s));
    ReadByte(c, i, [QUOTE], 0);
    ReadByte(c, j - 1, [QUOTE], 0);
  }

  /** What the printer writes for a string is such a literal. */
  lemma StringSpells(s: seq<byte>, c: seq<byte>, i: nat, j: nat)
    requires NUL !in s && CanRead(c, i, StringText(s)) && j == i + |StringText(s)|
    ensures SpellsString(s, c, i, j)
  {
    LiteralParts(s, c, i, j);
    EscapeSpells(s, c, i + 1, j - 1);
  }
}
