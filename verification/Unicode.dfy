/**
 Unicode text as UTF-8 (RFC 3629): encoding a code point, recognising well-formed sequences, and decoding any bytes
 the way a decoder does that replaces each ill-formed part by U+FFFD.
 */
module Unicode {
  import opened Bytes

  type CodePoint = n: int | 0 <= n <= 0x10FFFF

  /** UTF-8 (section 3 of RFC 3629), one to four bytes. */
  function Utf8(n: CodePoint): (t: seq<byte>)
    ensures 1 <= |t| <= 4 && (n < 0x1_0000 ==> |t| <= 3)
  {
    if n < 0x80 then [n]
    else if n < 0x800 then [0xC0 + n / 0x40, 0x80 + n % 0x40]
    else if n < 0x1_0000 then [0xE0 + n / 0x1000, 0x80 + n / 0x40 % 0x40, 0x80 + n % 0x40]
    else [0xF0 + n / 0x4_0000, 0x80 + n / 0x1000 % 0x40, 0x80 + n / 0x40 % 0x40, 0x80 + n % 0x40]
  }

  // ---- well-formed sequences, by the grammar of section 4 of RFC 3629 ----

  predicate IsTail(b: byte) {
    0x80 <= b <= 0xBF
  }

  function TailBits(b: byte): nat
    requires IsTail(b)
  {
    var d: int := b;
    d - 0x80
  }

  /** A Unicode scalar value: a code point that is not half of a surrogate pair. */
  predicate IsScalar(n: int) {
    0 <= n <= 0x10FFFF && !(0xD800 <= n <= 0xDFFF)
  }

  /** The bytes that may follow a leading byte: some leading bytes narrow the range. */
  predicate IsSecond(a: byte, b: byte) {
    && IsTail(b) && (a == 0xE0 ==> b >= 0xA0) && (a == 0xED ==> b <= 0x9F)
    && (a == 0xF0 ==> b >= 0x90) && (a == 0xF4 ==> b <= 0x8F)
  }

  /** The length of the sequences with this leading byte, 0 if there are none. */
  function LengthOf(a: byte): nat {
    if a <= 0x7F then 1
    else if 0xC2 <= a <= 0xDF then 2
    else if 0xE0 <= a <= 0xEF then 3
    else if 0xF0 <= a <= 0xF4 then 4
    else 0
  }

  /** The code point of a single well-formed sequence. */
  function DecodeUtf8(t: seq<byte>): (r: Option<nat>)
    ensures r.Some? ==> IsScalar(r.value)
  {
    if t == [] || |t| != LengthOf(t[0]) || (|t| > 1 && !IsSecond(t[0], t[1])) then None
    else if |t| > 2 && !IsTail(t[2]) then None
    else if |t| > 3 && !IsTail(t[3]) then None
    else
      var a: int := t[0];
      Some(if |t| == 1 then a
           else if |t| == 2 then (a - 0xC0) * 0x40 + TailBits(t[1])
           else if |t| == 3 then (a - 0xE0) * 0x1000 + TailBits(t[1]) * 0x40 + TailBits(t[2])
           else (a - 0xF0) * 0x4_0000 + TailBits(t[1]) * 0x1000 + TailBits(t[2]) * 0x40 + TailBits(t[3]))
  }

  lemma Utf8Decodes(n: CodePoint)
    requires IsScalar(n)
    ensures DecodeUtf8(Utf8(n)) == Some(n)
  {
    var a, b, d := n / 0x40, n / 0x1000, n / 0x4_0000;
    assert a / 0x40 == b && b / 0x40 == d;
  }

  /** A code point has only one well-formed sequence. */
  lemma Utf8Unique(t: seq<byte>)
    requires DecodeUtf8(t).Some?
    ensures Utf8(DecodeUtf8(t).value) == t
  {
    var n := DecodeUtf8(t).value;
    if |t| == 2 {
      assert n / 0x40 == t[0] - 0xC0 && n % 0x40 == TailBits(t[1]);
    } else if |t| == 3 {
      ThreeBytes(t[0] - 0xE0, TailBits(t[1]), TailBits(t[2]), n);
    } else if |t| == 4 {
      FourBytes(t[0] - 0xF0, TailBits(t[1]), TailBits(t[2]), TailBits(t[3]), n);
    }
  }

  lemma ThreeBytes(a: int, b: int, c: int, n: int)
    requires 0 <= b < 0x40 && 0 <= c < 0x40 && n == a * 0x1000 + b * 0x40 + c
    ensures n / 0x1000 == a && n / 0x40 % 0x40 == b && n % 0x40 == c
  {
    assert n / 0x40 == a * 0x40 + b;
  }

  lemma FourBytes(a: int, b: int, c: int, d: int, n: int)
    requires 0 <= b < 0x40 && 0 <= c < 0x40 && 0 <= d < 0x40 && n == a * 0x4_0000 + b * 0x1000 + c * 0x40 + d
    ensures n / 0x4_0000 == a && n / 0x1000 % 0x40 == b && n / 0x40 % 0x40 == c && n % 0x40 == d
  {
    assert n / 0x40 == a * 0x1000 + b * 0x40 + c;
    assert n / 0x1000 == a * 0x40 + b;
  }

  // ---- text ----

  const REPLACEMENT: CodePoint := 0xFFFD

  /** How far the bytes at the front go along with some well-formed sequence: the part that is replaced as one. */
  function Front(t: seq<byte>): (n: nat)
    requires t != []
    ensures 1 <= n <= |t|
  {
    var need := LengthOf(t[0]);
    if need >= 2 && |t| > 1 && IsSecond(t[0], t[1]) then
      if need >= 3 && |t| > 2 && IsTail(t[2]) then if need >= 4 && |t| > 3 && IsTail(t[3]) then 4 else 3
      else 2
    else 1
  }

  function FirstOf(t: seq<byte>): (n: CodePoint)
    requires t != []
    ensures IsScalar(n)
  {
    match DecodeUtf8(t[..Front(t)]) case Some(n) => n case None => REPLACEMENT
  }

  /** Any bytes as text, each ill-formed part replaced. */
  function DecodeText(t: seq<byte>): seq<CodePoint> {
    if t == [] then [] else [FirstOf(t)] + DecodeText(t[Front(t)..])
  }

  // ---- which part is replaced as one ----

  /** The bytes are the beginning of a well-formed sequence, or all of one. */
  ghost predicate Begins(t: seq<byte>) {
    exists u :: DecodeUtf8(t + u).Some?
  }

  predicate GoesAlong(t: seq<byte>)
    requires t != []
  {
    && |t| <= LengthOf(t[0]) && (|t| > 1 ==> IsSecond(t[0], t[1]))
    && (|t| > 2 ==> IsTail(t[2])) && (|t| > 3 ==> IsTail(t[3]))
  }

  lemma BeginsIff(t: seq<byte>)
    requires t != []
    ensures Begins(t) <==> GoesAlong(t)
  {
    if Begins(t) {
      var u :| DecodeUtf8(t + u).Some?;
      assert forall k :: 0 <= k < |t| ==> (t + u)[k] == t[k];
    }
    if GoesAlong(t) {
      var need, second: byte := LengthOf(t[0]), if t[0] == 0xE0 then 0xA0 else if t[0] == 0xF0 then 0x90 else 0x80;
      var all := [t[0], if |t| > 1 then t[1] else second, if |t| > 2 then t[2] else 0x80,
                  if |t| > 3 then t[3] else 0x80];
      var w := all[..need];
      assert w == t + w[|t|..];
      assert DecodeUtf8(w).Some?;
    }
  }

  /**
   The part at the front is the longest that begins a well-formed sequence, or one byte if none does; if it is not all
   of one it is replaced by U+FFFD.
   */
  lemma FrontIsLongest(t: seq<byte>)
    requires t != []
    ensures Front(t) == 1 || Begins(t[..Front(t)])
    ensures forall k :: Front(t) < k <= |t| ==> !Begins(t[..k])
    ensures DecodeUtf8(t[..Front(t)]).None? ==> FirstOf(t) == 0xFFFD
  {
    BeginsIff(t[..Front(t)]);
    forall k | Front(t) < k <= |t| ensures !Begins(t[..k]) { BeginsIff(t[..k]); }
  }

  // ---- encoding, and what decoding keeps ----

  function EncodeText(s: seq<CodePoint>): seq<byte> {
    if s == [] then [] else Utf8(s[0]) + EncodeText(s[1..])
  }

  predicate WellFormed(t: seq<byte>) {
    t == [] || (DecodeUtf8(t[..Front(t)]).Some? && WellFormed(t[Front(t)..]))
  }

  predicate AllScalars(s: seq<CodePoint>) {
    forall i :: 0 <= i < |s| ==> IsScalar(s[i])
  }

  lemma {:induction false} DecodedScalars(t: seq<byte>)
    ensures AllScalars(DecodeText(t))
  {
    if t != [] { DecodedScalars(t[Front(t)..]); }
  }

  lemma FrontOfCode(n: CodePoint, rest: seq<byte>)
    requires IsScalar(n)
    ensures var t := Utf8(n) + rest; Front(t) == |Utf8(n)| && t[..Front(t)] == Utf8(n) && t[Front(t)..] == rest
  {
    Utf8Decodes(n);
    var u := Utf8(n);
    var t := u + rest;
    assert forall k :: 0 <= k < |u| ==> t[k] == u[k];
  }

  /** Decoding gives back every text that was encoded. */
  lemma {:induction false} TextBack(s: seq<CodePoint>)
    requires AllScalars(s)
    ensures DecodeText(EncodeText(s)) == s && WellFormed(EncodeText(s))
  {
    if s != [] {
      var rest := EncodeText(s[1..]);
      FrontOfCode(s[0], rest);
      Utf8Decodes(s[0]);
      TextBack(s[1..]);
      assert s == [s[0]] + s[1..];
    }
  }

  /** Decoding loses nothing exactly if the bytes are well formed. */
  lemma {:induction false} WellFormedIff(t: seq<byte>)
    ensures EncodeText(DecodeText(t)) == t <==> WellFormed(t)
  {
    if WellFormed(t) {
      KeepsWellFormed(t);
    } else {
      DecodedScalars(t);
      TextBack(DecodeText(t));
    }
  }

  lemma {:induction false} KeepsWellFormed(t: seq<byte>)
    requires WellFormed(t)
    ensures EncodeText(DecodeText(t)) == t
  {
    if t != [] {
      var n := Front(t);
      KeepsWellFormed(t[n..]);
      FirstKept(t);
      KeepsOneMore(t, n, FirstOf(t), DecodeText(t[n..]), DecodeText(t));
    }
  }

  lemma KeepsOneMore(t: seq<byte>, n: nat, first: CodePoint, rest: seq<CodePoint>, all: seq<CodePoint>)
    requires n <= |t| && Utf8(first) == t[..n] && EncodeText(rest) == t[n..] && all == [first] + rest
    ensures EncodeText(all) == t
  {
    EncodeFirst(first, rest);
    assert t == t[..n] + t[n..];
  }

  lemma FirstKept(t: seq<byte>)
    requires t != [] && DecodeUtf8(t[..Front(t)]).Some?
    ensures Utf8(FirstOf(t)) == t[..Front(t)]
  {
    Utf8Unique(t[..Front(t)]);
  }

  lemma EncodeFirst(n: CodePoint, s: seq<CodePoint>)
    ensures EncodeText([n] + s) == Utf8(n) + EncodeText(s)
  {
    assert ([n] + s)[1..] == s;
  }

  /** What remains of bytes once the ill-formed parts are replaced. */
  function Repaired(t: seq<byte>): seq<byte> {
    EncodeText(DecodeText(t))
  }

  /** Two texts decode alike exactly if they are the same once repaired. */
  lemma DecodedAlike(t: seq<byte>, u: seq<byte>)
    ensures DecodeText(t) == DecodeText(u) <==> Repaired(t) == Repaired(u)
  {
    DecodedScalars(t);
    DecodedScalars(u);
    TextBack(DecodeText(t));
    TextBack(DecodeText(u));
  }
}
