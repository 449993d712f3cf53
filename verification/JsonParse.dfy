/**
 What the parser makes of a buffer: a function of the bytes, the offset and the levels left to nest, written the
 way the code walks the buffer. Results carry the offset the parser stops at; failures carry nothing.
 */
module JsonParse {
  import opened Bytes
  import opened JsonText
  import opened Unicode

  datatype Parsed<+T> = Fail | Ok(value: T, off: nat)

  const NESTING_LIMIT := 1000

  predicate CanRead(c: seq<byte>, off: nat, text: seq<byte>) {
    off + |text| <= |c| && c[off..off + |text|] == text
  }

  predicate Sees(c: seq<byte>, off: nat, b: byte) {
    off < |c| && c[off] == b
  }

  // ---- whitespace ----

  function SkipBlank(c: seq<byte>, off: nat): (p: nat)
    requires off <= |c|
    ensures off <= p <= |c| && (p < |c| ==> c[p] > 32)
    decreases |c| - off
  {
    if off < |c| && c[off] <= 32 then SkipBlank(c, off + 1) else off
  }

  /** Skips bytes up to 32; at the end of the buffer it steps back onto the last byte. */
  function SkipWhitespace(c: seq<byte>, off: nat): (p: nat)
    requires off <= |c|
    ensures off <= p <= |c| && (off < |c| ==> p < |c|)
  {
    if off == |c| then off
    else var p := SkipBlank(c, off); if p == |c| then p - 1 else p
  }

  // ---- numbers ----

  predicate IsNumberByte(b: byte) {
    IsDigit(b) || b == PLUS || b == MINUS || b == 0x65 || b == 0x45 || b == DOT
  }

  /** Number characters in a row, at most `limit`. */
  function NumberRun(c: seq<byte>, off: nat, limit: nat): (n: nat)
    requires off <= |c|
    ensures n <= limit && off + n <= |c|
    decreases |c| - off
  {
    if limit == 0 || off == |c| || !IsNumberByte(c[off]) then 0 else 1 + NumberRun(c, off + 1, limit - 1)
  }

  function DigitRun(t: seq<byte>, i: nat): (n: nat)
    requires i <= |t|
    ensures i + n <= |t| && forall j :: i <= j < i + n ==> IsDigit(t[j])
    decreases |t| - i
  {
    if i < |t| && IsDigit(t[i]) then 1 + DigitRun(t, i + 1) else 0
  }

  /** The digits in a row from `i` on. */
  function Digits(t: seq<byte>, i: nat): (d: seq<byte>)
    requires i <= |t|
    ensures |d| == DigitRun(t, i) && forall j :: 0 <= j < |d| ==> IsDigit(d[j])
  {
    t[i..i + DigitRun(t, i)]
  }

  function IsSign(t: seq<byte>, i: nat): nat {
    if i < |t| && (t[i] == PLUS || t[i] == MINUS) then 1 else 0
  }

  datatype Exponent = Exponent(value: int, used: nat)

  /** The exponent part at `i` and its length; zero and empty when there is none. */
  function ExponentAt(t: seq<byte>, i: nat): (r: Exponent)
    requires i <= |t|
    ensures i + r.used <= |t|
  {
    if i == |t| || !(t[i] == 0x65 || t[i] == 0x45) then Exponent(0, 0)
    else
      var j := i + 1 + IsSign(t, i + 1);
      if j > |t| then Exponent(0, 0)
      else
        var n := DigitRun(t, j);
        if n == 0 then Exponent(0, 0)
        else
          var e: int := DigitsValue(Digits(t, j));
          Exponent(if t[i + 1] == MINUS then -e else e, j + n - i)
  }

  /** The number with these digits, the last `frac` of them behind the dot, and the exponent at `k`. */
  function DecimalAt(t: seq<byte>, negative: bool, digits: seq<byte>, frac: nat, k: nat): (r: Parsed<Decimal>)
    requires k <= |t| && forall j :: 0 <= j < |digits| ==> IsDigit(digits[j])
    ensures r.Ok? && k <= r.off <= |t|
  {
    var m: int := DigitsValue(digits);
    var e := ExponentAt(t, k);
    Ok(Decimal(if negative then -m else m, e.value - frac), k + e.used)
  }

  /** `strtod` on text made of number characters: the longest number at the front and its length. */
  function Strtod(t: seq<byte>): (r: Parsed<Decimal>)
    ensures r.Ok? ==> 1 <= r.off <= |t|
  {
    var i := IsSign(t, 0);
    var negative := i == 1 && t[0] == MINUS;
    var whole := Digits(t, i);
    var j := i + |whole|;
    if j < |t| && t[j] == DOT then
      var frac := Digits(t, j + 1);
      if whole == [] && frac == [] then Fail else DecimalAt(t, negative, whole + frac, |frac|, j + 1 + |frac|)
    else if whole == [] then Fail
    else DecimalAt(t, negative, whole, 0, j)
  }

  /** The text handed to `strtod`: only the first 63 number characters are looked at. */
  function NumberText(c: seq<byte>, off: nat): (t: seq<byte>)
    requires off <= |c|
    ensures off + |t| <= |c|
  {
    c[off..off + NumberRun(c, off, 63)]
  }

  function NumberFrom(off: nat, r: Parsed<Decimal>): Parsed<Json> {
    if r.Fail? then Fail else Ok(Number(r.value), off + r.off)
  }

  function ParseNumber(c: seq<byte>, off: nat): (r: Parsed<Json>)
    requires off <= |c|
    ensures r.Ok? ==> off < r.off <= |c|
  {
    NumberFrom(off, Strtod(NumberText(c, off)))
  }

  // ---- strings ----

  /** First pass: the index of the closing quote, treating a backslash and the byte after it as a unit. */
  function ClosingQuote(c: seq<byte>, i: nat): (r: Parsed<()>)
    requires i <= |c|
    ensures r.Ok? ==> i <= r.off < |c| && c[r.off] == QUOTE
    decreases |c| - i
  {
    if i == |c| then Fail
    else if c[i] == QUOTE then Ok((), i)
    else if c[i] == BACKSLASH then if i + 1 >= |c| then Fail else ClosingQuote(c, i + 2)
    else ClosingQuote(c, i + 1)
  }

  function HexValue(b: byte): (r: Parsed<nat>)
    ensures r.Ok? ==> r.value < 16
  {
    var d: int := b;
    if 0x30 <= d <= 0x39 then Ok(d - 0x30, 0)
    else if 0x41 <= d <= 0x46 then Ok(d - 0x37, 0)
    else if 0x61 <= d <= 0x66 then Ok(d - 0x57, 0)
    else Fail
  }

  /** Four hex digits; 0 if any is invalid, which callers cannot tell from a genuine 0. */
  function Hex4(c: seq<byte>, i: nat): (h: nat)
    requires i + 4 <= |c|
    ensures h < 0x1_0000
  {
    var a, b, d, e := HexValue(c[i]), HexValue(c[i + 1]), HexValue(c[i + 2]), HexValue(c[i + 3]);
    if a.Fail? || b.Fail? || d.Fail? || e.Fail? then 0
    else ((a.value * 16 + b.value) * 16 + d.value) * 16 + e.value
  }

  /** The code point of the `\u` sequence, or pair of sequences, at `i`, and its length in the text. */
  function Utf16At(c: seq<byte>, i: nat, end: nat): (r: Parsed<CodePoint>)
    requires i <= end <= |c|
    ensures r.Ok? ==> i + r.off <= end && (r.off == 6 || r.off == 12) && (r.off == 6 ==> r.value < 0x1_0000)
  {
    if end - i < 6 then Fail
    else
      var first := Hex4(c, i + 2);
      if 0xDC00 <= first <= 0xDFFF then Fail
      else if 0xD800 <= first <= 0xDBFF then
        if end - i < 12 || c[i + 6] != BACKSLASH || c[i + 7] != LETTER_U then Fail
        else
          var second := Hex4(c, i + 8);
          if second < 0xDC00 || second > 0xDFFF then Fail
          else Ok(0x1_0000 + (first - 0xD800) * 0x400 + (second - 0xDC00), 12)
      else Ok(first, 6)
  }

  /** The byte a two-character escape stands for. */
  function Unescaped(b: byte): Parsed<byte> {
    if b == 0x62 then Ok(0x08, 0) else if b == 0x66 then Ok(0x0C, 0) else if b == 0x6E then Ok(0x0A, 0)
    else if b == 0x72 then Ok(0x0D, 0) else if b == 0x74 then Ok(0x09, 0)
    else if b == QUOTE || b == BACKSLASH || b == SLASH then Ok(b, 0) else Fail
  }

  /**
   Second pass: one unit at `i`, the bytes it yields and its length. The closing quote at `end` may be taken
   for the second byte of an escape, so a unit can reach one past `end`.
   */
  function Unit(c: seq<byte>, i: nat, end: nat): (r: Parsed<seq<byte>>)
    requires i < end < |c|
    ensures r.Ok? ==> r.off >= 1 && i + r.off <= end + 1
  {
    if c[i] != BACKSLASH then Ok([c[i]], 1)
    else if c[i + 1] == LETTER_U then
      match Utf16At(c, i, end)
      case Fail => Fail
      case Ok(n, used) => Ok(Utf8(n), used)
    else match Unescaped(c[i + 1])
      case Fail => Fail
      case Ok(b, _) => Ok([b], 2)
  }

  function Unescape(c: seq<byte>, i: nat, end: nat, acc: seq<byte>): Parsed<seq<byte>>
    requires i <= end + 1 && end < |c|
    decreases end + 1 - i
  {
    if i >= end then Ok(acc, i)
    else match Unit(c, i, end)
      case Fail => Fail
      case Ok(bytes, used) => Unescape(c, i + used, end, acc + bytes)
  }

  function ParseString(c: seq<byte>, off: nat): (r: Parsed<seq<byte>>)
    requires off <= |c|
    ensures r.Ok? ==> off + 1 < r.off <= |c|
  {
    if !Sees(c, off, QUOTE) then Fail
    else match ClosingQuote(c, off + 1)
      case Fail => Fail
      case Ok(_, end) =>
        match Unescape(c, off + 1, end, [])
        case Fail => Fail
        case Ok(text, _) => Ok(text, end + 1)
  }

  // ---- values ----

  /** `left` is how many more levels of arrays and objects may open. */
  function ParseValue(c: seq<byte>, off: nat, left: nat): (r: Parsed<Json>)
    requires off <= |c|
    ensures r.Ok? ==> off < r.off <= |c|
    decreases |c| - off, 3
  {
    ParseToken(c, off, left)
  }

  /** The first bytes decide the kind of value. */
  function ParseToken(c: seq<byte>, off: nat, left: nat): (r: Parsed<Json>)
    requires off <= |c|
    ensures r.Ok? ==> off < r.off <= |c|
    decreases |c| - off, 2
  {
    if CanRead(c, off, NULL_TEXT) then Ok(Null, off + 4)
    else if CanRead(c, off, FALSE_TEXT) then Ok(False, off + 5)
    else if CanRead(c, off, TRUE_TEXT) then Ok(True, off + 4)
    else if off == |c| then Fail
    else if c[off] == QUOTE then
      match ParseString(c, off) case Fail => Fail case Ok(s, p) => Ok(String(s), p)
    else if c[off] == MINUS || IsDigit(c[off]) then ParseNumber(c, off)
    else if c[off] == OPEN_BRACKET then ParseArray(c, off, left)
    else if c[off] == OPEN_BRACE then ParseObject(c, off, left)
    else Fail
  }

  function ParseArray(c: seq<byte>, off: nat, left: nat): (r: Parsed<Json>)
    requires Sees(c, off, OPEN_BRACKET)
    ensures r.Ok? ==> off < r.off <= |c|
    decreases |c| - off, 1
  {
    if left == 0 then Fail
    else
      var p := SkipWhitespace(c, off + 1);
      if Sees(c, p, CLOSE_BRACKET) then Ok(Array([]), p + 1)
      else if p == |c| then Fail
      else match ParseElements(c, p, left - 1, [])
        case Fail => Fail
        case Ok(items, q) => Ok(Array(items), q)
  }

  /** Elements from `off` up to and including the closing bracket; `items` are those already parsed. */
  function ParseElements(c: seq<byte>, off: nat, left: nat, items: seq<Json>): (r: Parsed<seq<Json>>)
    requires off <= |c|
    ensures r.Ok? ==> off < r.off <= |c|
    decreases |c| - off, 6
  {
    ElementTurn(c, off, left, items)
  }

  /** A value after any whitespace. */
  function ParseElement(c: seq<byte>, off: nat, left: nat): (r: Parsed<Json>)
    requires off <= |c|
    ensures r.Ok? ==> off < r.off <= |c|
    decreases |c| - off, 4
  {
    ParseValue(c, SkipWhitespace(c, off), left)
  }

  /** One turn of the loop over the elements. */
  function ElementTurn(c: seq<byte>, off: nat, left: nat, items: seq<Json>): (r: Parsed<seq<Json>>)
    requires off <= |c|
    ensures r.Ok? ==> off < r.off <= |c|
    decreases |c| - off, 5
  {
    match ParseElement(c, off, left)
    case Fail => Fail
    case Ok(v, p) =>
      var q := SkipWhitespace(c, p);
      if Sees(c, q, COMMA) then ParseElements(c, q + 1, left, items + [v])
      else if Sees(c, q, CLOSE_BRACKET) then Ok(items + [v], q + 1)
      else Fail
  }

  function ParseObject(c: seq<byte>, off: nat, left: nat): (r: Parsed<Json>)
    requires Sees(c, off, OPEN_BRACE)
    ensures r.Ok? ==> off < r.off <= |c|
    decreases |c| - off, 1
  {
    if left == 0 then Fail
    else
      var p := SkipWhitespace(c, off + 1);
      if Sees(c, p, CLOSE_BRACE) then Ok(Object([]), p + 1)
      else if p == |c| then Fail
      else match ParseMembers(c, p, left - 1, [])
        case Fail => Fail
        case Ok(members, q) => Ok(Object(members), q)
  }

  function ParseMembers(c: seq<byte>, off: nat, left: nat, members: seq<Member>): (r: Parsed<seq<Member>>)
    requires off <= |c|
    ensures r.Ok? ==> off < r.off <= |c|
    decreases |c| - off, 8
  {
    MemberTurn(c, off, left, members)
  }

  function MemberTurn(c: seq<byte>, off: nat, left: nat, members: seq<Member>): (r: Parsed<seq<Member>>)
    requires off <= |c|
    ensures r.Ok? ==> off < r.off <= |c|
    decreases |c| - off, 7
  {
    match ParseMember(c, off, left)
    case Fail => Fail
    case Ok(m, p) =>
      var q := SkipWhitespace(c, p);
      if Sees(c, q, COMMA) then ParseMembers(c, q + 1, left, members + [m])
      else if Sees(c, q, CLOSE_BRACE) then Ok(members + [m], q + 1)
      else Fail
  }

  /** A member, unless nothing comes after the comma. */
  function ParseMember(c: seq<byte>, off: nat, left: nat): (r: Parsed<Member>)
    requires off <= |c|
    ensures r.Ok? ==> off < r.off <= |c|
    decreases |c| - off, 6
  {
    if off == |c| then Fail else ParsePair(c, off, left)
  }

  /** A name, a colon and a value. */
  function ParsePair(c: seq<byte>, off: nat, left: nat): (r: Parsed<Member>)
    requires off < |c|
    ensures r.Ok? ==> off < r.off <= |c|
    decreases |c| - off, 5
  {
    match ParseString(c, SkipWhitespace(c, off))
    case Fail => Fail
    case Ok(key, p) =>
      var q := SkipWhitespace(c, p);
      if !Sees(c, q, COLON) then Fail
      else match ParseElement(c, q + 1, left)
        case Fail => Fail
        case Ok(v, end) => Ok(Member(key, v), end)
  }

  predicate HasBom(c: seq<byte>) {
    4 < |c| && c[..3] == [0xEF, 0xBB, 0xBF]
  }

  /** A whole buffer. With `terminated`, only whitespace and a NUL may follow the value. */
  function Parse(c: seq<byte>, terminated: bool, limit: nat): (r: Parsed<Json>)
    ensures r.Ok? ==> r.off <= |c| && (terminated ==> Sees(c, r.off, NUL))
  {
    if c == [] then Fail
    else match ParseValue(c, SkipWhitespace(c, if HasBom(c) then 3 else 0), limit)
      case Fail => Fail
      case Ok(v, p) =>
        if !terminated then Ok(v, p)
        else
          var q := SkipWhitespace(c, p);
          if Sees(c, q, NUL) then Ok(v, q) else Fail
  }
}
