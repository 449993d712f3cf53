/**
 The frame check sequence of IEEE 802.15.4 (section 7.2.1.9 of IEEE Std 802.15.4-2006): a 16-bit remainder,
 advanced a byte at a time by shifts and exclusive ors. It is division by x^16 + x^12 + x^5 + 1, it is linear,
 and that settles which transmission errors it detects on frames of any length.
 */
module Fcs {
  type Octet = b: bv16 | b & 0xFF00 == 0

  // ---- polynomial division ----

  /** The product with x^12 + x^5 + 1, for factors that stay within sixteen bits. */
  function Times(t: bv16): bv16 {
    t ^ (t << 5) ^ (t << 12)
  }

  /** One step of long division: shift a zero in and subtract the polynomial times the bit that came out. */
  function BitStep(r: bv16): bv16 {
    (r << 1) ^ Times(r >> 15)
  }

  function Divide(r: bv16, bits: nat): bv16
    decreases bits, r
  {
    if bits == 0 then r else BitStep(Divide(r, bits - 1))
  }

  /** A byte is added to the top of the remainder, then divided for eight steps. */
  function Step(crc: bv16, data: Octet): bv16 {
    Divide(crc ^ Lifted(data), 8)
  }

  function Lifted(data: Octet): bv16 {
    data << 8
  }

  /** The textbook form of the step, with the polynomial as a mask. */
  lemma BitStepIs(r: bv16)
    ensures BitStep(r) == if r & 0x8000 != 0 then (r << 1) ^ 0x1021 else r << 1
  {
    if r & 0x8000 != 0 {
      assert r >> 15 == 1;
    } else {
      assert r >> 15 == 0;
    }
  }

  /** Two steps at once, and four. */
  function Double(r: bv16): bv16 {
    (r << 2) ^ Times(r >> 14)
  }

  function Nibble(r: bv16): bv16 {
    (r << 4) ^ Times(r >> 12)
  }

  lemma TwoSteps(r: bv16, s: bv16, u: bv16)
    requires var t := r >> 15; s == (r << 1) ^ (t ^ (t << 5) ^ (t << 12))
    requires var t := s >> 15; u == (s << 1) ^ (t ^ (t << 5) ^ (t << 12))
    ensures var t := r >> 14; u == (r << 2) ^ (t ^ (t << 5) ^ (t << 12))
  {
  }

  lemma FourSteps(r: bv16, s: bv16, u: bv16)
    requires var t := r >> 14; s == (r << 2) ^ (t ^ (t << 5) ^ (t << 12))
    requires var t := s >> 14; u == (s << 2) ^ (t ^ (t << 5) ^ (t << 12))
    ensures var t := r >> 12; u == (r << 4) ^ (t ^ (t << 5) ^ (t << 12))
  {
  }

  lemma BitStepForm(r: bv16, s: bv16)
    requires s == BitStep(r)
    ensures var t := r >> 15; s == (r << 1) ^ (t ^ (t << 5) ^ (t << 12))
  {
  }

  lemma DoubleForm(r: bv16, s: bv16)
    ensures var t := r >> 14; s == (r << 2) ^ (t ^ (t << 5) ^ (t << 12)) <==> s == Double(r)
  {
  }

  lemma NibbleForm(r: bv16, s: bv16)
    ensures var t := r >> 12; s == (r << 4) ^ (t ^ (t << 5) ^ (t << 12)) <==> s == Nibble(r)
  {
  }

  lemma DoubleIs(r: bv16, s: bv16, u: bv16)
    requires s == BitStep(r) && u == BitStep(s)
    ensures u == Double(r)
  {
    BitStepForm(r, s);
    BitStepForm(s, u);
    TwoSteps(r, s, u);
    DoubleForm(r, u);
  }

  lemma NibbleIs(r: bv16, s: bv16, u: bv16)
    requires s == Double(r) && u == Double(s)
    ensures u == Nibble(r)
  {
    DoubleForm(r, s);
    DoubleForm(s, u);
    FourSteps(r, s, u);
    NibbleForm(r, u);
  }

  lemma DivideByFour(r: bv16, k: nat)
    ensures Divide(r, k + 4) == Nibble(Divide(r, k))
  {
    DoubleIs(Divide(r, k), Divide(r, k + 1), Divide(r, k + 2));
    DoubleIs(Divide(r, k + 2), Divide(r, k + 3), Divide(r, k + 4));
    NibbleIs(Divide(r, k), Divide(r, k + 2), Divide(r, k + 4));
  }

  lemma StepIsNibbles(crc: bv16, data: Octet)
    ensures Step(crc, data) == Nibble(Nibble(crc ^ Lifted(data)))
  {
    var r := crc ^ Lifted(data);
    DivideByFour(r, 0);
    DivideByFour(r, 4);
  }

  // ---- the code ----

  method CrcAdd(crc: bv16, data: Octet) returns (n: bv16)
    ensures n == Step(crc, data)
  {
    n := ((crc >> 8) & 0xFF) | (crc << 8);
    ghost var swapped := n;
    n := n ^ data;
    ghost var a := n;
    n := n ^ ((n & 0xFF) >> 4);
    ghost var b := n;
    n := n ^ (n << 12);
    ghost var c := n;
    n := n ^ ((n & 0xFF) << 5);
    CodeIsStep(crc, data, swapped, a, b, c, n);
  }

  lemma CodeIsStep(crc: bv16, data: Octet, swapped: bv16, a: bv16, b: bv16, c: bv16, n: bv16)
    requires swapped == ((crc >> 8) & 0xFF) | (crc << 8)
    requires a == swapped ^ data && b == a ^ ((a & 0xFF) >> 4) && c == b ^ (b << 12) && n == c ^ ((c & 0xFF) << 5)
    ensures n == Step(crc, data)
  {
    var r := crc ^ (data << 8);
    SwapForm(crc, data, r, swapped, a);
    MixForm(r, a, b, c, n);
    StepForm(crc, data, r, n);
  }

  /** Swapping the bytes and adding the data leaves what is to be divided, turned by a byte. */
  lemma SwapForm(crc: bv16, data: Octet, r: bv16, swapped: bv16, a: bv16)
    requires swapped == ((crc >> 8) & 0xFF) | (crc << 8) && a == swapped ^ data && r == crc ^ (data << 8)
    ensures a == (r << 8) ^ (r >> 8)
  {
  }

  lemma MixForm(r: bv16, a: bv16, b: bv16, c: bv16, n: bv16)
    requires a == (r << 8) ^ (r >> 8)
    requires b == a ^ ((a & 0xFF) >> 4) && c == b ^ (b << 12) && n == c ^ ((c & 0xFF) << 5)
    ensures var x := (r >> 8) ^ (r >> 12); n == (r << 8) ^ (x ^ (x << 5) ^ (x << 12))
  {
  }

  lemma EightForm(r: bv16, p: bv16, q: bv16)
    requires var t := r >> 12; p == (r << 4) ^ (t ^ (t << 5) ^ (t << 12))
    requires var t := p >> 12; q == (p << 4) ^ (t ^ (t << 5) ^ (t << 12))
    ensures var x := (r >> 8) ^ (r >> 12); q == (r << 8) ^ (x ^ (x << 5) ^ (x << 12))
  {
  }

  lemma StepForm(crc: bv16, data: Octet, r: bv16, n: bv16)
    requires r == crc ^ (data << 8)
    ensures var x := (r >> 8) ^ (r >> 12);
            n == (r << 8) ^ (x ^ (x << 5) ^ (x << 12)) <==> n == Step(crc, data)
  {
    StepIsNibbles(crc, data);
    var p := Nibble(r);
    var q := Nibble(p);
    NibbleForm(r, p);
    NibbleForm(p, q);
    EightForm(r, p, q);
  }

  function BitReverse(d: Octet): Octet {
    ((d << 7) & 0x80) | ((d << 5) & 0x40) | ((d << 3) & 0x20) | ((d << 1) & 0x10) |
    ((d >> 7) & 0x01) | ((d >> 5) & 0x02) | ((d >> 3) & 0x04) | ((d >> 1) & 0x08)
  }

  method CrcAddReversed(crc: bv16, data: Octet) returns (n: bv16)
    ensures n == Step(crc, BitReverse(data))
  {
    n := CrcAdd(crc, BitReverse(data));
  }

  lemma ReverseTwice(d: Octet)
    ensures BitReverse(BitReverse(d)) == d
  {
  }

  /** Bit k of the reversed byte is bit 7 - k of the byte. */
  lemma ReverseBits(d: Octet, k: bv16)
    requires k <= 7
    ensures (BitReverse(d) >> k) & 1 == (d >> (7 - k)) & 1
  {
    assert k == 0 || k == 1 || k == 2 || k == 3 || k == 4 || k == 5 || k == 6 || k == 7;
  }

  // ---- linearity ----

  lemma BitStepSum(a: bv16, b: bv16, c: bv16, sa: bv16, sb: bv16, sc: bv16)
    requires c == a ^ b
    requires var t := a >> 15; sa == (a << 1) ^ (t ^ (t << 5) ^ (t << 12))
    requires var t := b >> 15; sb == (b << 1) ^ (t ^ (t << 5) ^ (t << 12))
    requires var t := c >> 15; sc == (c << 1) ^ (t ^ (t << 5) ^ (t << 12))
    ensures sc == sa ^ sb
  {
  }

  lemma {:induction false} DivideSum(a: bv16, b: bv16, c: bv16, bits: nat, da: bv16, db: bv16, dc: bv16)
    requires c == a ^ b && da == Divide(a, bits) && db == Divide(b, bits) && dc == Divide(c, bits)
    ensures dc == da ^ db
    decreases bits
  {
    if bits > 0 {
      var pa, pb, pc := Divide(a, bits - 1), Divide(b, bits - 1), Divide(c, bits - 1);
      DivideSum(a, b, c, bits - 1, pa, pb, pc);
      StepsSum(pa, pb, pc, da, db, dc);
    }
  }

  lemma StepsSum(a: bv16, b: bv16, c: bv16, sa: bv16, sb: bv16, sc: bv16)
    requires c == a ^ b && sa == BitStep(a) && sb == BitStep(b) && sc == BitStep(c)
    ensures sc == sa ^ sb
  {
    BitStepForm(a, sa);
    BitStepForm(b, sb);
    BitStepForm(c, sc);
    BitStepSum(a, b, c, sa, sb, sc);
  }

  /** Adding two registers and two bytes adds the results. */
  lemma StepSum(a: bv16, b: bv16, c: bv16, x: Octet, y: Octet, z: Octet, sa: bv16, sb: bv16, sc: bv16)
    requires c == a ^ b && z == x ^ y && sa == Step(a, x) && sb == Step(b, y) && sc == Step(c, z)
    ensures sc == sa ^ sb
  {
    var p: bv16 :| p == a ^ Lifted(x);
    var q: bv16 :| q == b ^ Lifted(y);
    var r: bv16 :| r == c ^ Lifted(z);
    StepDivides(a, x, p, sa);
    StepDivides(b, y, q, sb);
    StepDivides(c, z, r, sc);
    LiftSum(a, b, c, x, y, z, p, q, r);
    DivideSum(p, q, r, 8, sa, sb, sc);
  }

  lemma StepDivides(crc: bv16, data: Octet, r: bv16, s: bv16)
    requires s == Step(crc, data) && r == crc ^ Lifted(data)
    ensures s == Divide(r, 8)
  {
  }

  lemma LiftSum(a: bv16, b: bv16, c: bv16, x: Octet, y: Octet, z: Octet, p: bv16, q: bv16, r: bv16)
    requires c == a ^ b && z == x ^ y && p == a ^ Lifted(x) && q == b ^ Lifted(y) && r == c ^ Lifted(z)
    ensures r == p ^ q
  {
  }

  // ---- frames ----

  function Crc(crc: bv16, frame: seq<Octet>): bv16
    decreases |frame|
  {
    if frame == [] then crc else Crc(Step(crc, frame[0]), frame[1..])
  }

  lemma {:induction false} CrcConcat(crc: bv16, f: seq<Octet>, g: seq<Octet>)
    ensures Crc(crc, f + g) == Crc(Crc(crc, f), g)
    decreases f
  {
    if f == [] {
      assert f + g == g;
    } else {
      assert (f + g)[0] == f[0] && (f + g)[1..] == f[1..] + g;
      CrcConcat(Step(crc, f[0]), f[1..], g);
    }
  }

  /** Two frames added bit by bit: a frame and an error pattern, say. */
  function Sum(f: seq<Octet>, g: seq<Octet>): (r: seq<Octet>)
    requires |f| == |g|
    ensures |r| == |f|
  {
    if f == [] then [] else [f[0] ^ g[0]] + Sum(f[1..], g[1..])
  }

  function Zeros(n: nat): (r: seq<Octet>)
    ensures |r| == n
  {
    if n == 0 then [] else [0] + Zeros(n - 1)
  }

  /** The check sequence of a sum is the sum of the check sequences. */
  lemma {:induction false} CrcSum(a: bv16, b: bv16, c: bv16, f: seq<Octet>, g: seq<Octet>, h: seq<Octet>, ra: bv16,
                                  rb: bv16, rc: bv16)
    requires |f| == |g| && h == Sum(f, g) && c == a ^ b
    requires ra == Crc(a, f) && rb == Crc(b, g) && rc == Crc(c, h)
    ensures rc == ra ^ rb
    decreases f
  {
    if f != [] {
      var z := SumFirst(f, g, h);
      var sa, sb, sc := Step(a, f[0]), Step(b, g[0]), Step(c, z);
      StepSum(a, b, c, f[0], g[0], z, sa, sb, sc);
      CrcSum(sa, sb, sc, f[1..], g[1..], h[1..], ra, rb, rc);
    }
  }

  lemma SumFirst(f: seq<Octet>, g: seq<Octet>, h: seq<Octet>) returns (z: Octet)
    requires |f| == |g| && f != [] && h == Sum(f, g)
    ensures z == f[0] ^ g[0] && h[0] == z && h[1..] == Sum(f[1..], g[1..])
  {
    z := h[0];
  }

  /** Which errors a receiver misses does not depend on the frame: those whose own remainder is zero. */
  lemma DetectedIff(f: seq<Octet>, e: seq<Octet>)
    requires |f| == |e|
    ensures Crc(0, Sum(f, e)) == Crc(0, f) <==> Crc(0, e) == 0
  {
    var x, y, z := Crc(0, f), Crc(0, e), Crc(0, Sum(f, e));
    CrcSum(0, 0, 0, f, e, Sum(f, e), x, y, z);
    XorCancels(x, y, z);
  }

  lemma XorCancels(x: bv16, y: bv16, z: bv16)
    requires z == x ^ y
    ensures z == x <==> y == 0
  {
    if z == x { XorBack(x, y, z); }
  }

  lemma XorBack(x: bv16, y: bv16, z: bv16)
    requires z == x ^ y
    ensures y == x ^ z
  {
  }

  // ---- a frame with its own check sequence ----

  function High(c: bv16): Octet {
    c >> 8
  }

  function Low(c: bv16): Octet {
    c & 0xFF
  }

  lemma OwnHigh(c: bv16, high: Octet, d: bv16)
    requires high == c >> 8 && d == c << 8
    ensures d == Step(c, high)
  {
    var r: bv16 :| r == c ^ (high << 8);
    assert r >> 8 == 0 && r << 8 == d;
    assert r >> 12 == 0;
    StepForm(c, high, r, d);
  }

  lemma OwnLow(c: bv16, low: Octet, d: bv16)
    requires low == c & 0xFF && d == c << 8
    ensures 0 == Step(d, low)
  {
    var r: bv16 :| r == d ^ (low << 8);
    assert r == 0;
    StepForm(d, low, r, 0);
  }

  /** Appending a frame's check sequence, high byte first, drives the register to zero. */
  lemma Residue(frame: seq<Octet>)
    ensures var c := Crc(0, frame); Crc(0, frame + [High(c), Low(c)]) == 0
  {
    var c := Crc(0, frame);
    CrcConcat(0, frame, [High(c), Low(c)]);
    OwnHigh(c, High(c), c << 8);
    OwnLow(c, Low(c), c << 8);
    TwoMore(c, High(c), Low(c));
  }

  lemma TwoMore(c: bv16, x: Octet, y: Octet)
    ensures Crc(c, [x, y]) == Step(Step(c, x), y)
  {
    var f: seq<Octet>, g: seq<Octet>, s := [x, y], [y], Step(c, x);
    assert f[1..] == g;
    OneMore(s, y);
    assert Crc(c, f) == Crc(s, g);
  }

  lemma OneMore(c: bv16, x: Octet)
    ensures Crc(c, [x]) == Step(c, x)
  {
    var f: seq<Octet> := [x];
    assert f[1..] == [];
    assert Crc(c, f) == Crc(Step(c, x), []);
  }

  function Reversed(f: seq<Octet>): (r: seq<Octet>)
    ensures |r| == |f|
  {
    if f == [] then [] else [BitReverse(f[0])] + Reversed(f[1..])
  }

  lemma {:induction false} ReversedConcat(f: seq<Octet>, g: seq<Octet>)
    ensures Reversed(f + g) == Reversed(f) + Reversed(g)
    decreases f
  {
    if f == [] {
      assert f + g == g;
      assert Reversed(f) + Reversed(g) == Reversed(g);
    } else {
      assert (f + g)[0] == f[0] && (f + g)[1..] == f[1..] + g;
      ReversedConcat(f[1..], g);
    }
  }

  /** Receivers that take bytes bit-reversed need the check sequence bit-reversed too. */
  lemma ReversedResidue(frame: seq<Octet>)
    ensures var c := Crc(0, Reversed(frame));
            Crc(0, Reversed(frame + [BitReverse(High(c)), BitReverse(Low(c))])) == 0
  {
    var c := Crc(0, Reversed(frame));
    var tail: seq<Octet> := [BitReverse(High(c)), BitReverse(Low(c))];
    ReversedConcat(frame, tail);
    ReverseTwice(High(c));
    ReverseTwice(Low(c));
    assert tail[1..] == [BitReverse(Low(c))];
    assert Reversed(tail) == [High(c), Low(c)];
    Residue(Reversed(frame));
  }

  // ---- error detection ----

  lemma BitStepZero(r: bv16, s: bv16)
    requires var t := r >> 15; s == (r << 1) ^ (t ^ (t << 5) ^ (t << 12))
    ensures s == 0 <==> r == 0
  {
  }

  /** Division loses nothing: only zero goes to zero. */
  lemma {:induction false} DivideZero(r: bv16, bits: nat, d: bv16)
    requires d == Divide(r, bits)
    ensures d == 0 <==> r == 0
    decreases bits
  {
    if bits > 0 {
      var p := Divide(r, bits - 1);
      DivideZero(r, bits - 1, p);
      BitStepForm(p, d);
      BitStepZero(p, d);
    }
  }

  lemma StepZero(c: bv16, x: Octet, s: bv16)
    requires s == Step(c, x)
    ensures s == 0 <==> c ^ (x << 8) == 0
  {
    var r: bv16 :| r == c ^ Lifted(x);
    StepDivides(c, x, r, s);
    DivideZero(r, 8, s);
  }

  lemma {:induction false} ZerosKeep(c: bv16, n: nat)
    ensures Crc(c, Zeros(n)) == 0 <==> c == 0
    decreases n
  {
    if n > 0 {
      var s := Step(c, 0);
      StepZero(c, 0, s);
      ZerosKeep(s, n - 1);
      assert Zeros(n)[0] == 0 && Zeros(n)[1..] == Zeros(n - 1);
    }
  }

  /** Leading and trailing zeros do not matter to whether an error pattern is detected. */
  lemma Padded(before: nat, e: seq<Octet>, after: nat)
    ensures Crc(0, Zeros(before) + e + Zeros(after)) == 0 <==> Crc(0, e) == 0
  {
    CrcConcat(0, Zeros(before) + e, Zeros(after));
    CrcConcat(0, Zeros(before), e);
    ZerosKeep(0, before);
    ZerosKeep(Crc(0, e), after);
  }

  lemma TwoBytesCore(x: bv16, y: bv16, r: bv16, t: bv16, s: bv16)
    requires x & 0xFF00 == 0 && y & 0xFF00 == 0 && r == x << 8 && t == (r >> 8) ^ (r >> 12)
    requires s == (r << 8) ^ (t ^ (t << 5) ^ (t << 12)) && s ^ (y << 8) == 0
    ensures x == 0 && y == 0
  {
  }

  lemma TwoBytes(x: Octet, y: Octet)
    requires Crc(0, [x, y]) == 0
    ensures x == 0 && y == 0
  {
    var s := Step(0, x);
    TwoMore(0, x, y);
    StepZero(s, y, Step(s, y));
    FirstByte(x, x << 8, s);
    TwoBytesCore(x, y, x << 8, ((x << 8) >> 8) ^ ((x << 8) >> 12), s);
  }

  lemma FirstByte(x: Octet, r: bv16, s: bv16)
    requires r == x << 8 && s == Step(0, x)
    ensures var t := (r >> 8) ^ (r >> 12); s == (r << 8) ^ (t ^ (t << 5) ^ (t << 12))
  {
    StepForm(0, x, r, s);
  }

  /** Any change confined to two adjacent bytes, anywhere in a frame of any length, changes the check sequence. */
  lemma TwoAdjacentBytes(f: seq<Octet>, before: nat, x: Octet, y: Octet)
    requires before + 2 <= |f| && (x != 0 || y != 0)
    ensures Crc(0, Sum(f, Zeros(before) + [x, y] + Zeros(|f| - before - 2))) != Crc(0, f)
  {
    var e := Zeros(before) + [x, y] + Zeros(|f| - before - 2);
    if Crc(0, [x, y]) == 0 { TwoBytes(x, y); }
    Padded(before, [x, y], |f| - before - 2);
    DetectedIff(f, e);
  }

  lemma BurstCore(b: bv16, k: bv16, x: bv16, y: bv16, z: bv16, r: bv16, t: bv16, s: bv16, q: bv16, u: bv16, v: bv16)
    requires k <= 8 && x == (b >> k) >> 8 && y == (b >> k) & 0xFF && z == (b << (8 - k)) & 0xFF
    requires r == x << 8 && t == (r >> 8) ^ (r >> 12) && s == (r << 8) ^ (t ^ (t << 5) ^ (t << 12))
    requires q == s ^ (y << 8) && u == (q >> 8) ^ (q >> 12) && v == (q << 8) ^ (u ^ (u << 5) ^ (u << 12))
    requires v ^ (z << 8) == 0
    ensures b == 0
  {
  }

  /** The three bytes that sixteen bits in a row touch when they start `k` bits into the first. */
  function Burst(b: bv16, k: bv16): (e: seq<Octet>)
    requires k <= 8
    ensures |e| == 3
  {
    [(b >> k) >> 8, (b >> k) & 0xFF, (b << (8 - k)) & 0xFF]
  }

  lemma ThreeMore(x: Octet, y: Octet, z: Octet)
    ensures Crc(0, [x, y, z]) == Step(Step(Step(0, x), y), z)
  {
    var f: seq<Octet>, s := [x, y, z], Step(0, x);
    assert f[1..] == [y, z];
    TwoMore(s, y, z);
    assert Crc(0, f) == Crc(s, [y, z]);
  }

  lemma BurstNotZero(b: bv16, k: bv16, x: Octet, y: Octet, z: Octet)
    requires k <= 8 && x == (b >> k) >> 8 && y == (b >> k) & 0xFF && z == (b << (8 - k)) & 0xFF
    requires Crc(0, [x, y, z]) == 0
    ensures b == 0
  {
    var s := Step(0, x);
    var v := Step(s, y);
    ThreeMore(x, y, z);
    StepZero(v, z, Step(v, z));
    var r: bv16 :| r == x << 8;
    FirstByte(x, r, s);
    var q: bv16 :| q == s ^ (y << 8);
    StepForm(s, y, q, v);
    var t: bv16 :| t == (r >> 8) ^ (r >> 12);
    var u: bv16 :| u == (q >> 8) ^ (q >> 12);
    BurstCore(b, k, x, y, z, r, t, s, q, u, v);
  }

  /** Every burst of at most sixteen bits is detected, at any bit position of a frame of any length. */
  lemma BurstChanges(f: seq<Octet>, before: nat, b: bv16, k: bv16)
    requires before + 3 <= |f| && k <= 8 && b != 0
    ensures Crc(0, Sum(f, Zeros(before) + Burst(b, k) + Zeros(|f| - before - 3))) != Crc(0, f)
  {
    var e := Burst(b, k);
    if Crc(0, e) == 0 { BurstNotZero(b, k, e[0], e[1], e[2]); }
    Padded(before, e, |f| - before - 3);
    DetectedIff(f, Zeros(before) + e + Zeros(|f| - before - 3));
  }

  /** Any change of one byte is detected, in frames of one byte too. */
  lemma OneByte(f: seq<Octet>, before: nat, x: Octet)
    requires before + 1 <= |f| && x != 0
    ensures Crc(0, Sum(f, Zeros(before) + [x] + Zeros(|f| - before - 1))) != Crc(0, f)
  {
    OneMore(0, x);
    StepZero(0, x, Step(0, x));
    LiftedZero(x);
    Padded(before, [x], |f| - before - 1);
    DetectedIff(f, Zeros(before) + [x] + Zeros(|f| - before - 1));
  }

  lemma LiftedZero(x: Octet)
    ensures 0 ^ (x << 8) == 0 <==> x == 0
  {
  }

  // ---- odd errors: x + 1 divides the polynomial, so the parity of a remainder is the parity of the frame ----

  /** How many bits of `w` are set. */
  function Ones(w: bv16): nat
    decreases w
  {
    if w == 0 then 0 else Ones(w >> 1) + if w & 1 == 1 then 1 else 0
  }

  predicate Odd(w: bv16) {
    Ones(w) % 2 == 1
  }

  lemma OddShift(w: bv16, v: bv16)
    requires v == w >> 1
    ensures Odd(w) <==> ((w & 1 == 1) != Odd(v))
  {
    if w == 0 { assert v == 0; }
  }

  lemma {:induction false} OddSum(a: bv16, b: bv16, c: bv16)
    requires c == a ^ b
    ensures Odd(c) <==> (Odd(a) != Odd(b))
    decreases a, b
  {
    if a == 0 {
      assert c == b;
    } else {
      var p, q, r := a >> 1, b >> 1, c >> 1;
      ShiftedSum(a, b, c, p, q, r);
      OddSum(p, q, r);
      OddShift(a, p);
      OddShift(b, q);
      OddShift(c, r);
    }
  }

  lemma ShiftedSum(a: bv16, b: bv16, c: bv16, p: bv16, q: bv16, r: bv16)
    requires c == a ^ b && p == a >> 1 && q == b >> 1 && r == c >> 1
    ensures r == p ^ q && (a != 0 ==> p < a)
    ensures c & 1 == 1 <==> ((a & 1 == 1) != (b & 1 == 1))
  {
  }

  lemma OddEven(w: bv16, v: bv16)
    requires v == w >> 1 && w & 1 == 0
    ensures Odd(w) <==> Odd(v)
  {
    OddShift(w, v);
  }

  lemma OddOne(w: bv16, v: bv16)
    requires v == w >> 1 && w & 1 == 1
    ensures Odd(w) <==> !Odd(v)
  {
    OddShift(w, v);
  }

  /** The leading bit, and the rest of the polynomial: three bits. */
  lemma OddMasks() returns (out: bv16, poly: bv16)
    ensures out == 0x8000 && poly == 0x1021 && Odd(out) && Odd(poly)
  {
    out, poly := 0x8000, 0x1021;
    OddOne(1, 0);
    OddEven(2, 1);
    OddEven(4, 2);
    OddEven(8, 4);
    OddEven(0x10, 8);
    OddEven(0x20, 0x10);
    OddEven(0x40, 0x20);
    OddEven(0x80, 0x40);
    OddEven(0x100, 0x80);
    OddEven(0x200, 0x100);
    OddEven(0x400, 0x200);
    OddEven(0x800, 0x400);
    OddEven(0x1000, 0x800);
    OddEven(0x2000, 0x1000);
    OddEven(0x4000, 0x2000);
    OddEven(0x8000, 0x4000);
    OddSum(0x1000, 0x20, 0x1020);
    OddSum(0x1020, 1, 0x1021);
  }

  lemma OddDouble(w: bv16, v: bv16)
    requires v == w << 1 && w & 0x8000 == 0
    ensures Odd(v) <==> Odd(w)
  {
    assert w == v >> 1 && v & 1 == 0;
    OddEven(v, w);
  }

  lemma WithoutLeadingBit(r: bv16, low: bv16, up: bv16)
    requires low == r & 0x7FFF && up == r << 1
    ensures up == low << 1 && low & 0x8000 == 0
  {
  }

  lemma LeadingBit(r: bv16, low: bv16, out: bv16)
    requires low == r & 0x7FFF && r & 0x8000 != 0 && out == 0x8000
    ensures r == low ^ out
  {
  }

  /** A division step keeps the parity: a leading bit that drops out is replaced by three bits. */
  lemma OddBitStep(r: bv16, s: bv16)
    requires s == BitStep(r)
    ensures Odd(s) <==> Odd(r)
  {
    BitStepIs(r);
    if r & 0x8000 != 0 {
      var out, poly := OddMasks();
      OddLeading(r, r & 0x7FFF, out, r << 1, poly, s);
    } else {
      OddDouble(r, s);
    }
  }

  lemma OddLeading(r: bv16, low: bv16, out: bv16, up: bv16, poly: bv16, s: bv16)
    requires low == r & 0x7FFF && up == r << 1 && s == up ^ poly && r & 0x8000 != 0
    requires out == 0x8000 && Odd(out) && Odd(poly)
    ensures Odd(s) <==> Odd(r)
  {
    WithoutLeadingBit(r, low, up);
    LeadingBit(r, low, out);
    OddDouble(low, up);
    OddReplaced(r, low, out, up, poly, s);
  }

  lemma OddReplaced(r: bv16, low: bv16, out: bv16, up: bv16, poly: bv16, s: bv16)
    requires r == low ^ out && s == up ^ poly && Odd(out) && Odd(poly) && (Odd(up) <==> Odd(low))
    ensures Odd(s) <==> Odd(r)
  {
    OddSum(low, out, r);
    OddSum(up, poly, s);
  }

  lemma {:induction false} OddDivide(r: bv16, bits: nat)
    ensures Odd(Divide(r, bits)) <==> Odd(r)
    decreases bits
  {
    if bits > 0 {
      OddDivide(r, bits - 1);
      OddBitStep(Divide(r, bits - 1), Divide(r, bits));
    }
  }

  lemma OddFourUp(x: bv16, y: bv16)
    requires x & 0xF000 == 0 && y == x << 4
    ensures Odd(y) <==> Odd(x)
  {
    var a: bv16 :| a == x << 1;
    var b: bv16 :| b == a << 1;
    var c: bv16 :| c == b << 1;
    assert y == c << 1 && x & 0x8000 == 0 && a & 0x8000 == 0 && b & 0x8000 == 0 && c & 0x8000 == 0;
    OddDouble(x, a);
    OddDouble(a, b);
    OddDouble(b, c);
    OddDouble(c, y);
  }

  lemma OddLifted(x: Octet, y: bv16)
    requires y == Lifted(x)
    ensures Odd(y) <==> Odd(x)
  {
    var a: bv16 :| a == x << 4;
    assert y == a << 4 && x & 0xF000 == 0 && a & 0xF000 == 0;
    OddFourUp(x, a);
    OddFourUp(a, y);
  }

  lemma OddStep(c: bv16, x: Octet)
    ensures Odd(Step(c, x)) <==> (Odd(c) != Odd(x))
  {
    OddStepForm(c, x, Lifted(x), c ^ Lifted(x));
  }

  lemma OddStepForm(c: bv16, x: Octet, y: bv16, r: bv16)
    requires y == Lifted(x) && r == c ^ y
    ensures Odd(Divide(r, 8)) <==> (Odd(c) != Odd(x))
  {
    OddLifted(x, y);
    OddSum(c, y, r);
    OddDivide(r, 8);
  }

  /** How many bits of a frame, or of an error pattern, are set. */
  function Weight(e: seq<Octet>): nat {
    if e == [] then 0 else Ones(e[0]) + Weight(e[1..])
  }

  /** The parity of the remainder is the parity of the frame. */
  lemma {:induction false} OddCrc(c: bv16, e: seq<Octet>)
    ensures Odd(Crc(c, e)) <==> (Odd(c) != (Weight(e) % 2 == 1))
    decreases e
  {
    if e != [] {
      OddStep(c, e[0]);
      OddCrc(Step(c, e[0]), e[1..]);
    }
  }

  /** Every error that flips an odd number of bits is detected, wherever they are. */
  lemma OddErrors(f: seq<Octet>, e: seq<Octet>)
    requires |f| == |e| && Weight(e) % 2 == 1
    ensures Crc(0, Sum(f, e)) != Crc(0, f)
  {
    OddCrc(0, e);
    DetectedIff(f, e);
  }
}
