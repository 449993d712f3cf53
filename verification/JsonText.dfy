/**
 JSON values as cJSON holds them and the text its printers produce (RFC 8259): strings with their escapes
 (section 7), integers in decimal, arrays and objects with and without formatting.
 */
module JsonText {
  import opened Bytes

  /** A number is kept as the exact decimal its text denotes. */
  datatype Decimal = Decimal(mantissa: int, exponent: int)

  datatype Json =
    | Null
    | False
    | True
    | Number(value: Decimal)
    | String(text: seq<byte>)
    | Array(items: seq<Json>)
    | Object(members: seq<Member>)

  datatype Member = Member(key: seq<byte>, value: Json)

  const INT_MAX := 0x7FFF_FFFF
  const INT_MIN := -0x8000_0000

  const NUL: byte := 0x00
  const TAB: byte := 0x09
  const NEWLINE: byte := 0x0A
  const QUOTE: byte := 0x22
  const PLUS: byte := 0x2B
  const COMMA: byte := 0x2C
  const MINUS: byte := 0x2D
  const DOT: byte := 0x2E
  const SLASH: byte := 0x2F
  const ZERO: byte := 0x30
  const COLON: byte := 0x3A
  const OPEN_BRACKET: byte := 0x5B
  const BACKSLASH: byte := 0x5C
  const CLOSE_BRACKET: byte := 0x5D
  const OPEN_BRACE: byte := 0x7B
  const CLOSE_BRACE: byte := 0x7D
  const LETTER_U: byte := 0x75

  const NULL_TEXT: seq<byte> := [0x6E, 0x75, 0x6C, 0x6C]
  const FALSE_TEXT: seq<byte> := [0x66, 0x61, 0x6C, 0x73, 0x65]
  const TRUE_TEXT: seq<byte> := [0x74, 0x72, 0x75, 0x65]

  /** What the C string functions see of a string: the bytes in front of the first NUL. */
  function CString(s: seq<byte>): (r: seq<byte>)
    ensures NUL !in r && |r| <= |s| && (NUL !in s ==> r == s)
    ensures forall i :: 0 <= i < |r| ==> r[i] == s[i]
    ensures |r| < |s| ==> s[|r|] == NUL
  {
    if s == [] || s[0] == NUL then [] else [s[0]] + CString(s[1..])
  }

  /** What the integer path of the printers covers: int-valued numbers and C strings, which hold no NUL. */
  predicate Printable(v: Json)
    decreases v
  {
    match v
    case Number(d) => d.exponent == 0 && INT_MIN <= d.mantissa <= INT_MAX
    case String(s) => NUL !in s
    case Array(items) => AllPrintable(items)
    case Object(members) => AllMembersPrintable(members)
    case _ => true
  }

  predicate AllPrintable(items: seq<Json>)
    decreases items
  {
    items == [] || (Printable(items[0]) && AllPrintable(items[1..]))
  }

  predicate AllMembersPrintable(members: seq<Member>)
    decreases members
  {
    members == [] || (NUL !in members[0].key && Printable(members[0].value) && AllMembersPrintable(members[1..]))
  }

  // ---- numbers ----

  predicate IsDigit(b: byte) {
    0x30 <= b <= 0x39
  }

  function NatText(n: nat): (t: seq<byte>)
    ensures |t| >= 1 && forall i :: 0 <= i < |t| ==> IsDigit(t[i])
  {
    if n < 10 then [0x30 + n] else NatText(n / 10) + [0x30 + n % 10]
  }

  /** What `sprintf("%d")` writes. */
  function IntText(n: int): (t: seq<byte>)
    ensures |t| >= 1 && NUL !in t
  {
    if n < 0 then [MINUS] + NatText(-n) else NatText(n)
  }

  function DigitValue(b: byte): nat
    requires IsDigit(b)
  {
    var d: int := b;
    d - 0x30
  }

  function DigitsValue(t: seq<byte>): nat
    requires forall i :: 0 <= i < |t| ==> IsDigit(t[i])
  {
    if t == [] then 0 else DigitsValue(t[..|t| - 1]) * 10 + DigitValue(t[|t| - 1])
  }

  lemma {:induction false} NatTextValue(n: nat)
    ensures DigitsValue(NatText(n)) == n
  {
    if n >= 10 {
      NatTextValue(n / 10);
      var t := NatText(n);
      assert t[..|t| - 1] == NatText(n / 10);
    } else {
      assert NatText(n)[..0] == [];
    }
  }

  /** An int takes at most eleven characters. */
  lemma IntTextLength(n: int)
    requires INT_MIN <= n <= INT_MAX
    ensures |IntText(n)| <= 11
  {
    var m := if n < 0 then -n else n;
    NatTextLength(m, 10);
  }

  function Pow10(k: nat): nat {
    if k == 0 then 1 else 10 * Pow10(k - 1)
  }

  lemma {:induction false} NatTextLength(n: nat, k: nat)
    requires k >= 1 && n < Pow10(k)
    ensures |NatText(n)| <= k
  {
    if n >= 10 {
      assert k >= 2;
      NatTextLength(n / 10, k - 1);
    }
  }

  // ---- strings ----

  function HexDigit(n: nat): byte
    requires n < 16
  {
    if n < 10 then 0x30 + n else 0x61 + (n - 10)
  }

  /** The letter of a two-character escape, if the byte has one. */
  function ShortEscape(b: byte): (r: byte) {
    if b == 0x08 then 0x62 else if b == 0x0C then 0x66 else if b == 0x0A then 0x6E
    else if b == 0x0D then 0x72 else if b == 0x09 then 0x74
    else if b == QUOTE || b == BACKSLASH then b else NUL
  }

  /** One byte of a string as it is printed. */
  function EscapeByte(b: byte): (t: seq<byte>)
    ensures 1 <= |t| <= 6 && (b != NUL ==> NUL !in t)
  {
    if ShortEscape(b) != NUL then [BACKSLASH, ShortEscape(b)]
    else if b < 32 then [BACKSLASH, LETTER_U, ZERO, ZERO, HexDigit(b / 16), HexDigit(b % 16)]
    else [b]
  }

  function Escape(s: seq<byte>): (t: seq<byte>)
    ensures |t| >= |s| && (NUL !in s ==> NUL !in t)
  {
    if s == [] then [] else EscapeByte(s[0]) + Escape(s[1..])
  }

  function StringText(s: seq<byte>): (t: seq<byte>)
    ensures |t| >= 2 && (NUL !in s ==> NUL !in t)
  {
    [QUOTE] + Escape(s) + [QUOTE]
  }

  // ---- values ----

  function Tabs(n: nat): (t: seq<byte>)
    ensures |t| == n && NUL !in t
  {
    if n == 0 then [] else [TAB] + Tabs(n - 1)
  }

  /** The text of a value printed at nesting depth `depth`; `fmt` selects the formatted printer. */
  function Render(v: Json, depth: nat, fmt: bool): (t: seq<byte>)
    requires Printable(v)
    ensures |t| >= 1 && NUL !in t
    decreases v, 1
  {
    RenderNode(v, depth, fmt)
  }

  /** One layer of the text: a leaf, or a container around what its children render to. */
  function RenderNode(v: Json, depth: nat, fmt: bool): (t: seq<byte>)
    requires Printable(v)
    ensures |t| >= 1 && NUL !in t
    decreases v, 0
  {
    match v
    case Null => NULL_TEXT
    case False => FALSE_TEXT
    case True => TRUE_TEXT
    case Number(d) => IntText(d.mantissa)
    case String(s) => StringText(s)
    case Array(items) => [OPEN_BRACKET] + RenderItems(items, depth + 1, fmt) + [CLOSE_BRACKET]
    case Object(members) =>
      ObjectStart(fmt) + RenderMembers(members, depth + 1, fmt) + Indent(depth, fmt) + [CLOSE_BRACE]
  }

  function ObjectStart(fmt: bool): seq<byte> {
    if fmt then [OPEN_BRACE, NEWLINE] else [OPEN_BRACE]
  }

  function Indent(depth: nat, fmt: bool): (t: seq<byte>)
    ensures NUL !in t
  {
    if fmt then Tabs(depth) else []
  }

  function KeyEnd(fmt: bool): seq<byte> {
    if fmt then [COLON, TAB] else [COLON]
  }

  function Separator(fmt: bool): seq<byte> {
    if fmt then [COMMA, 0x20] else [COMMA]
  }

  function RenderItems(items: seq<Json>, depth: nat, fmt: bool): (t: seq<byte>)
    requires AllPrintable(items)
    ensures NUL !in t
    decreases items
  {
    if items == [] then []
    else if |items| == 1 then Render(items[0], depth, fmt)
    else Render(items[0], depth, fmt) + Separator(fmt) + RenderItems(items[1..], depth, fmt)
  }

  function RenderMember(m: Member, depth: nat, fmt: bool): (t: seq<byte>)
    requires NUL !in m.key && Printable(m.value)
    ensures NUL !in t
    decreases m
  {
    Indent(depth, fmt) + StringText(m.key) + KeyEnd(fmt) + Render(m.value, depth, fmt)
  }

  function MemberEnd(last: bool, fmt: bool): seq<byte> {
    (if last then [] else [COMMA]) + (if fmt then [NEWLINE] else [])
  }

  function RenderMembers(members: seq<Member>, depth: nat, fmt: bool): (t: seq<byte>)
    requires AllMembersPrintable(members)
    ensures NUL !in t
    decreases members
  {
    if members == [] then []
    else
      RenderMember(members[0], depth, fmt) + MemberEnd(|members| == 1, fmt) + RenderMembers(members[1..], depth, fmt)
  }

  /** Containers a value nests, itself included. */
  function Depth(v: Json): nat
    decreases v
  {
    match v
    case Array(items) => 1 + DepthAll(items)
    case Object(members) => 1 + DepthMembers(members)
    case _ => 0
  }

  function DepthAll(items: seq<Json>): nat
    decreases items
  {
    if items == [] then 0
    else var a, b := Depth(items[0]), DepthAll(items[1..]); if a >= b then a else b
  }

  function DepthMembers(members: seq<Member>): nat
    decreases members
  {
    if members == [] then 0
    else var a, b := Depth(members[0].value), DepthMembers(members[1..]); if a >= b then a else b
  }
}
