/**
 Comparison of two trees. Objects are compared by looking each member up in the other object, both ways; on
 trees whose objects name every member once this is equality up to the order of members.
 */
module JsonCompare {
  import opened Bytes
  import opened JsonText
  import opened JsonList
  import opened JsonTree
  import opened JsonDuplicate

  // ---- names and numbers ----

  function Lower(b: byte): byte {
    if 0x41 <= b <= 0x5A then b + 0x20 else b
  }

  /** The part of a key that counts: what is in front of the first NUL, as it is or in lower case. */
  function Fold(key: seq<byte>, sensitive: bool): (r: seq<byte>) {
    if sensitive then CString(key) else LowerAll(CString(key))
  }

  function LowerAll(s: seq<byte>): (r: seq<byte>)
    ensures |r| == |s| && forall i :: 0 <= i < |s| ==> r[i] == Lower(s[i])
  {
    if s == [] then [] else [Lower(s[0])] + LowerAll(s[1..])
  }

  predicate IsUpper(b: byte) {
    0x41 <= b <= 0x5A
  }

  /** Two bytes are the same letter in either case, or the same byte. */
  predicate SameLetter(x: byte, y: byte) {
    x == y || (IsUpper(x) && y == x + 0x20) || (IsUpper(y) && x == y + 0x20)
  }

  /** Keys fold together exactly if they agree, up to the first NUL, byte for byte up to the case of letters. */
  lemma FoldsTogether(a: seq<byte>, b: seq<byte>)
    ensures var x, y := CString(a), CString(b);
            Fold(a, false) == Fold(b, false) <==> |x| == |y| && forall i :: 0 <= i < |x| ==> SameLetter(x[i], y[i])
  {
    var x, y := CString(a), CString(b);
    var p, q := LowerAll(x), LowerAll(y);
    if p == q {
      forall i | 0 <= i < |x| ensures SameLetter(x[i], y[i]) { assert p[i] == q[i]; }
    }
    if |x| == |y| && forall i :: 0 <= i < |x| ==> SameLetter(x[i], y[i]) {
      forall i | 0 <= i < |x| ensures p[i] == q[i] { assert SameLetter(x[i], y[i]); }
    }
  }

  function Abs(x: real): real {
    if x < 0.0 then -x else x
  }

  const EPSILON: real := 1.0 / 4503599627370496.0

  /** `compare_double`, without rounding. */
  predicate CloseTo(a: real, b: real) {
    var larger := if Abs(a) > Abs(b) then Abs(a) else Abs(b);
    Abs(a - b) <= larger * EPSILON
  }

  function PowerOfTen(k: nat): real {
    if k == 0 then 1.0 else 10.0 * PowerOfTen(k - 1)
  }

  lemma {:induction false} PowerOfTenPositive(k: nat)
    ensures PowerOfTen(k) > 0.0
  {
    if k > 0 { PowerOfTenPositive(k - 1); }
  }

  function RealOf(d: Decimal): real {
    if d.exponent >= 0 then d.mantissa as real * PowerOfTen(d.exponent)
    else PowerOfTenPositive(-d.exponent); d.mantissa as real / PowerOfTen(-d.exponent)
  }

  /** A decimal is its mantissa shifted by its exponent. */
  lemma RealOfIs(m: int, e: int)
    ensures RealOf(Decimal(m, 0)) == m as real && RealOf(Decimal(m, e + 1)) == 10.0 * RealOf(Decimal(m, e))
  {
    if e < 0 {
      PowerOfTenPositive(-e - 1);
      var p, q := PowerOfTen(-e - 1), PowerOfTen(-e);
      assert q == 10.0 * p;
      Tenth(m as real, p, q);
    }
  }

  lemma Tenth(x: real, p: real, q: real)
    requires p > 0.0 && q == 10.0 * p
    ensures x / p == 10.0 * (x / q)
  {
    var y := x / q;
    assert x == y * q;
    assert x == 10.0 * y * p;
  }

  predicate IsInt(d: Decimal) {
    d.exponent == 0 && INT_MIN <= d.mantissa <= INT_MAX
  }

  /** On ints the tolerance lets nothing but equality through. */
  lemma IntsAreExact(a: Decimal, b: Decimal)
    requires IsInt(a) && IsInt(b)
    ensures CloseTo(RealOf(a), RealOf(b)) <==> a == b
  {
    var x, y := a.mantissa as real, b.mantissa as real;
    assert RealOf(a) == x && RealOf(b) == y;
    if a.mantissa != b.mantissa {
      assert Abs(x - y) >= 1.0;
      var larger := if Abs(x) > Abs(y) then Abs(x) else Abs(y);
      assert larger <= 2147483648.0;
      assert larger * EPSILON < 1.0;
    }
  }

  lemma ScaledByEpsilon(x: real, y: real)
    ensures x <= y * EPSILON <==> x * 4503599627370496.0 <= y
  {
    assert EPSILON * 4503599627370496.0 == 1.0;
    assert y * EPSILON * 4503599627370496.0 == y;
  }

  /** Two positive numbers are close if they differ by at most 2^-52 of the larger; signs matter, order does not. */
  lemma ToleranceIs(a: real, b: real)
    ensures 0.0 < b <= a ==> (CloseTo(a, b) <==> (a - b) * 4503599627370496.0 <= a)
    ensures CloseTo(a, b) == CloseTo(b, a) == CloseTo(-a, -b)
    ensures a > 0.0 >= b ==> !CloseTo(a, b)
    ensures CloseTo(a, a)
  {
    var larger := if Abs(a) > Abs(b) then Abs(a) else Abs(b);
    ScaledByEpsilon(Abs(a - b), larger);
    if a > 0.0 >= b { assert Abs(a - b) == a - b >= larger > 0.0; }
  }

  /** So closeness is no equivalence: steps of 2^-52 add up. */
  lemma ClosenessAddsUp()
    ensures var u := 1.0 / 4503599627370496.0;
            CloseTo(1.0, 1.0 + u) && CloseTo(1.0 + u, 1.0 + 2.0 * u) && !CloseTo(1.0, 1.0 + 2.0 * u)
  {
    var u := 1.0 / 4503599627370496.0;
    assert u * 4503599627370496.0 == 1.0;
    ToleranceIs(1.0 + u, 1.0);
    ToleranceIs(1.0 + 2.0 * u, 1.0 + u);
    ToleranceIs(1.0 + 2.0 * u, 1.0);
  }

  // ---- comparison ----

  function Size(v: Value): nat {
    1 + SizeAll(v.children)
  }

  function SizeAll(s: seq<Value>): nat {
    if s == [] then 0 else Size(s[0]) + SizeAll(s[1..])
  }

  lemma {:induction false} SizeOfMember(s: seq<Value>, i: nat)
    requires i < |s|
    ensures Size(s[i]) <= SizeAll(s)
  {
    if i > 0 { SizeOfMember(s[1..], i - 1); }
  }

  /** Where the lookup by name ends up; |s| if it finds nothing. A nameless child stops a case-sensitive lookup. */
  function Find(s: seq<Value>, key: seq<byte>, sensitive: bool): (i: nat)
    ensures i <= |s|
  {
    if s == [] then 0
    else match s[0].data.name
      case Unnamed => if sensitive then |s| else 1 + Find(s[1..], key, sensitive)
      case Named(k) => if Fold(k, sensitive) == Fold(key, sensitive) then 0 else 1 + Find(s[1..], key, sensitive)
  }

  /** What comparison decides for two different nodes, by their contents. */
  predicate Compare(a: Value, b: Value, sensitive: bool)
    decreases Size(a) + Size(b), 0
  {
    match a.data.kind
    case NumberKind(x) => b.data.kind.NumberKind? && CloseTo(RealOf(x), RealOf(b.data.kind.value))
    case StringKind(x) => b.data.kind.StringKind? && CString(x) == CString(b.data.kind.text)
    case ArrayKind => b.data.kind.ArrayKind? && CompareLists(a.children, b.children, sensitive)
    case ObjectKind =>
      b.data.kind.ObjectKind? && Within(a.children, b.children, sensitive) && Within(b.children, a.children, sensitive)
    case _ => a.data.kind == b.data.kind
  }

  predicate CompareLists(s: seq<Value>, t: seq<Value>, sensitive: bool)
    decreases SizeAll(s) + SizeAll(t), 1
  {
    if s == [] || t == [] then s == [] && t == []
    else Compare(s[0], t[0], sensitive) && CompareLists(s[1..], t[1..], sensitive)
  }

  /** Every member of `s` has a namesake in `t` that compares equal. */
  predicate Within(s: seq<Value>, t: seq<Value>, sensitive: bool)
    decreases SizeAll(s) + SizeAll(t), |s| + 1
  {
    s == [] ||
    (s[0].data.name.Named? &&
     var i := Find(t, s[0].data.name.key, sensitive);
     i < |t| && (SizeOfMember(t, i); Compare(s[0], t[i], sensitive)) && Within(s[1..], t, sensitive))
  }

  /** Two numbers of any size compare if and only if they are close. */
  lemma NumbersCompare(x: Decimal, y: Decimal, d: Data, e: Data, sensitive: bool)
    requires d.kind == NumberKind(x) && e.kind == NumberKind(y)
    ensures var a, b := RealOf(x), RealOf(y);
            var larger := if Abs(a) >= Abs(b) then Abs(a) else Abs(b);
            Compare(Value(d, []), Value(e, []), sensitive) <==> Abs(a - b) * 4503599627370496.0 <= larger
  {
    var a, b := RealOf(x), RealOf(y);
    ScaledByEpsilon(Abs(a - b), if Abs(a) >= Abs(b) then Abs(a) else Abs(b));
  }

  // ---- equality up to the order of members ----

  datatype Canon = Atom(kind: Kind) | List(items: seq<Canon>) | Dict(entries: map<seq<byte>, Canon>)

  function CanonOf(v: Value, sensitive: bool): Canon {
    match v.data.kind
    case ArrayKind => List(CanonAll(v.children, sensitive))
    case ObjectKind => Dict(Entries(v.children, sensitive))
    case _ => Atom(CopiedKind(v.data.kind))
  }

  function CanonAll(s: seq<Value>, sensitive: bool): (r: seq<Canon>)
    ensures |r| == |s|
  {
    if s == [] then [] else [CanonOf(s[0], sensitive)] + CanonAll(s[1..], sensitive)
  }

  function KeyOf(v: Value, sensitive: bool): seq<byte> {
    match v.data.name
    case Unnamed => []
    case Named(key) => Fold(key, sensitive)
  }

  /** The members as a map; of several with one name, the first. */
  function Entries(s: seq<Value>, sensitive: bool): map<seq<byte>, Canon> {
    if s == [] then map[] else Entries(s[1..], sensitive)[KeyOf(s[0], sensitive) := CanonOf(s[0], sensitive)]
  }

  // ---- what comparison accepts ----

  predicate AllNamed(s: seq<Value>) {
    forall i :: 0 <= i < |s| ==> s[i].data.name.Named?
  }

  /** Numbers are ints and the members of every object are named. */
  predicate Plain(v: Value)
    decreases v
  {
    match v.data.kind
    case NumberKind(d) => IsInt(d)
    case ArrayKind => AllPlain(v.children)
    case ObjectKind => AllNamed(v.children) && AllPlain(v.children)
    case _ => true
  }

  predicate AllPlain(s: seq<Value>)
    decreases s
  {
    forall i :: 0 <= i < |s| ==> Plain(s[i])
  }

  /** Members of one name mean the same. */
  predicate Agree(s: seq<Value>, sensitive: bool) {
    forall i, j :: 0 <= i < |s| && 0 <= j < |s| && KeyOf(s[i], sensitive) == KeyOf(s[j], sensitive) ==>
                     CanonOf(s[i], sensitive) == CanonOf(s[j], sensitive)
  }

  /** In every object of the tree, members of one name mean the same. */
  predicate Consistent(v: Value, sensitive: bool)
    decreases v
  {
    match v.data.kind
    case ArrayKind => AllConsistent(v.children, sensitive)
    case ObjectKind => Agree(v.children, sensitive) && AllConsistent(v.children, sensitive)
    case _ => true
  }

  predicate AllConsistent(s: seq<Value>, sensitive: bool)
    decreases s
  {
    forall i :: 0 <= i < |s| ==> Consistent(s[i], sensitive)
  }

  /** Looking a name up finds what the map holds for it. */
  lemma {:induction false} FindIsEntry(s: seq<Value>, key: seq<byte>, sensitive: bool)
    requires AllNamed(s)
    ensures var i, m := Find(s, key, sensitive), Entries(s, sensitive);
            && (i < |s| <==> Fold(key, sensitive) in m)
            && (i < |s| ==> m[Fold(key, sensitive)] == CanonOf(s[i], sensitive))
  {
    if s != [] { FindIsEntry(s[1..], key, sensitive); }
  }

  lemma {:induction false} EntryFrom(s: seq<Value>, k: seq<byte>, sensitive: bool) returns (i: nat)
    requires k in Entries(s, sensitive)
    ensures i < |s| && KeyOf(s[i], sensitive) == k && Entries(s, sensitive)[k] == CanonOf(s[i], sensitive)
  {
    if KeyOf(s[0], sensitive) == k {
      i := 0;
    } else {
      i := EntryFrom(s[1..], k, sensitive);
      i := i + 1;
    }
  }

  lemma {:induction false} KeyIsEntry(s: seq<Value>, i: nat, sensitive: bool)
    requires i < |s|
    ensures KeyOf(s[i], sensitive) in Entries(s, sensitive)
  {
    if i > 0 { KeyIsEntry(s[1..], i - 1, sensitive); }
  }

  /** `m` holds, under its own key, what every member of `s` means. */
  ghost predicate Covered(s: seq<Value>, m: map<seq<byte>, Canon>, sensitive: bool) {
    forall i :: 0 <= i < |s| ==>
      KeyOf(s[i], sensitive) in m && m[KeyOf(s[i], sensitive)] == CanonOf(s[i], sensitive)
  }

  /** A list of members that agree covers itself, and the other way round. */
  lemma AgreeIsCovered(s: seq<Value>, sensitive: bool)
    ensures Agree(s, sensitive) <==> Covered(s, Entries(s, sensitive), sensitive)
  {
    var m := Entries(s, sensitive);
    if Agree(s, sensitive) {
      forall i | 0 <= i < |s|
        ensures KeyOf(s[i], sensitive) in m && m[KeyOf(s[i], sensitive)] == CanonOf(s[i], sensitive)
      {
        KeyIsEntry(s, i, sensitive);
        var j := EntryFrom(s, KeyOf(s[i], sensitive), sensitive);
      }
    }
  }

  lemma CoveredBothWays(s: seq<Value>, t: seq<Value>, sensitive: bool)
    ensures Covered(s, Entries(t, sensitive), sensitive) && Covered(t, Entries(s, sensitive), sensitive)
            <==> Agree(s, sensitive) && Agree(t, sensitive) && Entries(s, sensitive) == Entries(t, sensitive)
  {
    var m, n := Entries(s, sensitive), Entries(t, sensitive);
    AgreeIsCovered(s, sensitive);
    AgreeIsCovered(t, sensitive);
    if Covered(s, n, sensitive) && Covered(t, m, sensitive) {
      forall k | k in m ensures k in n && m[k] == n[k] { var i := EntryFrom(s, k, sensitive); }
      forall k | k in n ensures k in m { var i := EntryFrom(t, k, sensitive); }
      assert m == n;
    }
  }

  /** The member lookup leads from `v` to, or nothing. */
  ghost predicate Meets(v: Value, t: seq<Value>, sensitive: bool) {
    && v.data.name.Named?
    && var i := Find(t, v.data.name.key, sensitive);
    && i < |t| && Compare(v, t[i], sensitive)
  }

  lemma {:induction false} WithinIs(s: seq<Value>, t: seq<Value>, sensitive: bool)
    ensures Within(s, t, sensitive) <==> forall i :: 0 <= i < |s| ==> Meets(s[i], t, sensitive)
    decreases |s|
  {
    if s != [] {
      var rest := s[1..];
      assert forall j :: 0 <= j < |rest| ==> rest[j] == s[j + 1];
      WithinIs(rest, t, sensitive);
      if Meets(s[0], t, sensitive) && forall j :: 0 <= j < |rest| ==> Meets(rest[j], t, sensitive) {
        forall i | 0 <= i < |s| ensures Meets(s[i], t, sensitive) {
          if i > 0 { assert s[i] == rest[i - 1]; }
        }
      }
    }
  }

  /**
   What comparison decides, for all trees of int numbers and named members, names repeating anywhere: both trees
   are consistent, and they mean the same.
   */
  lemma {:induction false} CompareIff(a: Value, b: Value, sensitive: bool)
    requires Plain(a) && Plain(b)
    ensures Compare(a, b, sensitive) <==>
            Consistent(a, sensitive) && Consistent(b, sensitive) && CanonOf(a, sensitive) == CanonOf(b, sensitive)
    decreases Size(a) + Size(b), 0
  {
    var k, l := a.data.kind, b.data.kind;
    if k.NumberKind? && l.NumberKind? {
      IntsAreExact(k.value, l.value);
    } else if k.ArrayKind? && l.ArrayKind? {
      ListsIff(a.children, b.children, sensitive);
    } else if k.ObjectKind? && l.ObjectKind? {
      ObjectsIff(a.children, b.children, sensitive);
    }
  }

  lemma {:induction false} ListsIff(s: seq<Value>, t: seq<Value>, sensitive: bool)
    requires AllPlain(s) && AllPlain(t)
    ensures CompareLists(s, t, sensitive) <==>
            && AllConsistent(s, sensitive) && AllConsistent(t, sensitive)
            && CanonAll(s, sensitive) == CanonAll(t, sensitive)
    decreases SizeAll(s) + SizeAll(t), 1
  {
    if s != [] && t != [] {
      CompareIff(s[0], t[0], sensitive);
      ListsIff(s[1..], t[1..], sensitive);
      ConsistentFirst(s, sensitive);
      ConsistentFirst(t, sensitive);
      FirstAndRest(CanonOf(s[0], sensitive), CanonAll(s[1..], sensitive), CanonOf(t[0], sensitive),
                   CanonAll(t[1..], sensitive));
    }
  }

  lemma ConsistentFirst(s: seq<Value>, sensitive: bool)
    requires s != []
    ensures AllConsistent(s, sensitive) <==> Consistent(s[0], sensitive) && AllConsistent(s[1..], sensitive)
  {
    var rest := s[1..];
    assert forall j :: 0 <= j < |rest| ==> rest[j] == s[j + 1];
    if Consistent(s[0], sensitive) && AllConsistent(rest, sensitive) {
      forall i | 0 <= i < |s| ensures Consistent(s[i], sensitive) {
        if i > 0 { assert s[i] == rest[i - 1]; }
      }
    }
  }

  lemma FirstAndRest(x: Canon, xs: seq<Canon>, y: Canon, ys: seq<Canon>)
    ensures [x] + xs == [y] + ys <==> x == y && xs == ys
  {
    if [x] + xs == [y] + ys {
      assert ([x] + xs)[0] == x && ([y] + ys)[0] == y;
      assert ([x] + xs)[1..] == xs && ([y] + ys)[1..] == ys;
    }
  }

  lemma {:induction false} ObjectsIff(s: seq<Value>, t: seq<Value>, sensitive: bool)
    requires AllPlain(s) && AllPlain(t) && AllNamed(s) && AllNamed(t)
    ensures Within(s, t, sensitive) && Within(t, s, sensitive) <==>
            && Agree(s, sensitive) && Agree(t, sensitive) && AllConsistent(s, sensitive)
            && AllConsistent(t, sensitive) && Entries(s, sensitive) == Entries(t, sensitive)
    decreases SizeAll(s) + SizeAll(t), 3
  {
    WithinIsCovered(s, t, sensitive);
    WithinIsCovered(t, s, sensitive);
    CoveredBothWays(s, t, sensitive);
  }

  /** `v` and the member it is compared with are consistent. */
  ghost predicate PairConsistent(v: Value, t: seq<Value>, sensitive: bool) {
    && Consistent(v, sensitive)
    && (v.data.name.Named? ==>
          var j := Find(t, v.data.name.key, sensitive); j < |t| ==> Consistent(t[j], sensitive))
  }

  lemma {:induction false} WithinIsCovered(s: seq<Value>, t: seq<Value>, sensitive: bool)
    requires AllPlain(s) && AllPlain(t) && AllNamed(s) && AllNamed(t)
    ensures Within(s, t, sensitive) <==>
            && Covered(s, Entries(t, sensitive), sensitive)
            && forall i :: 0 <= i < |s| ==> PairConsistent(s[i], t, sensitive)
    decreases SizeAll(s) + SizeAll(t), 2
  {
    var n := Entries(t, sensitive);
    WithinIs(s, t, sensitive);
    forall i | 0 <= i < |s|
      ensures Meets(s[i], t, sensitive) <==>
              (KeyOf(s[i], sensitive) in n && n[KeyOf(s[i], sensitive)] == CanonOf(s[i], sensitive))
              && PairConsistent(s[i], t, sensitive)
    {
      MeetsIff(s, i, t, sensitive);
    }
  }

  lemma {:induction false} MeetsIff(s: seq<Value>, i: nat, t: seq<Value>, sensitive: bool)
    requires AllPlain(s) && AllPlain(t) && AllNamed(s) && AllNamed(t) && i < |s|
    ensures var n := Entries(t, sensitive);
            Meets(s[i], t, sensitive) <==>
            (KeyOf(s[i], sensitive) in n && n[KeyOf(s[i], sensitive)] == CanonOf(s[i], sensitive))
            && PairConsistent(s[i], t, sensitive)
    decreases SizeAll(s) + SizeAll(t), 1
  {
    var key := s[i].data.name.key;
    var j := Find(t, key, sensitive);
    FindIsEntry(t, key, sensitive);
    SizeOfMember(s, i);
    if j < |t| {
      SizeOfMember(t, j);
      CompareIff(s[i], t[j], sensitive);
    }
  }

  // ---- names that do not repeat ----

  predicate DistinctKeys(s: seq<Value>, sensitive: bool) {
    forall i, j :: 0 <= i < j < |s| ==> KeyOf(s[i], sensitive) != KeyOf(s[j], sensitive)
  }

  /** No object of the tree has two members of one name. */
  predicate UniqueNames(v: Value, sensitive: bool)
    decreases v
  {
    && (v.data.kind.ObjectKind? ==> DistinctKeys(v.children, sensitive))
    && forall i :: 0 <= i < |v.children| ==> UniqueNames(v.children[i], sensitive)
  }

  lemma {:induction false} UniqueIsConsistent(v: Value, sensitive: bool)
    requires UniqueNames(v, sensitive)
    ensures Consistent(v, sensitive)
    decreases v
  {
    forall i | 0 <= i < |v.children| ensures Consistent(v.children[i], sensitive) {
      UniqueIsConsistent(v.children[i], sensitive);
    }
    if v.data.kind.ObjectKind? {
      var s := v.children;
      forall i, j | 0 <= i < |s| && 0 <= j < |s| && KeyOf(s[i], sensitive) == KeyOf(s[j], sensitive)
        ensures CanonOf(s[i], sensitive) == CanonOf(s[j], sensitive)
      {
        assert i == j;
      }
    }
  }

  /** Where no object repeats a name, comparison is equality up to the order of members. */
  lemma CompareIsCanon(a: Value, b: Value, sensitive: bool)
    requires Plain(a) && Plain(b) && UniqueNames(a, sensitive) && UniqueNames(b, sensitive)
    ensures Compare(a, b, sensitive) <==> CanonOf(a, sensitive) == CanonOf(b, sensitive)
  {
    CompareIff(a, b, sensitive);
    UniqueIsConsistent(a, sensitive);
    UniqueIsConsistent(b, sensitive);
  }

  lemma {:induction false} EntriesSize(s: seq<Value>, sensitive: bool)
    ensures |Entries(s, sensitive)| <= |s|
    ensures |Entries(s, sensitive)| == |s| <==> DistinctKeys(s, sensitive)
  {
    if s != [] {
      var rest, m, k := s[1..], Entries(s[1..], sensitive), KeyOf(s[0], sensitive);
      EntriesSize(rest, sensitive);
      assert forall j :: 0 <= j < |rest| ==> rest[j] == s[j + 1];
      if k in m {
        var i := EntryFrom(rest, k, sensitive);
        assert KeyOf(s[0], sensitive) == KeyOf(s[i + 1], sensitive);
        assert m[k := CanonOf(s[0], sensitive)].Keys == m.Keys;
        SameSize(m, m[k := CanonOf(s[0], sensitive)]);
      } else {
        forall j | 0 <= j < |rest| ensures KeyOf(rest[j], sensitive) != k { KeyIsEntry(rest, j, sensitive); }
      }
    }
  }

  lemma SameSize<K, V>(m: map<K, V>, n: map<K, V>)
    requires m.Keys == n.Keys
    ensures |m| == |n|
  {
    assert |m| == |m.Keys| && |n| == |n.Keys|;
  }

  /** Accepted objects of different length: there is a name repeated in one of them. */
  lemma AcceptedLengths(a: Value, b: Value, sensitive: bool)
    requires Plain(a) && Plain(b) && a.data.kind.ObjectKind? && Compare(a, b, sensitive)
    requires |a.children| != |b.children|
    ensures !DistinctKeys(a.children, sensitive) || !DistinctKeys(b.children, sensitive)
  {
    CompareIff(a, b, sensitive);
    EntriesSize(a.children, sensitive);
    EntriesSize(b.children, sensitive);
  }

  /** Repeating a member changes neither what an object means nor whether it is consistent. */
  lemma RepeatMeansSame(s: seq<Value>, i: nat, t: seq<Value>, sensitive: bool)
    requires i < |s| && t == [s[i]] + s
    ensures AllConsistent(s, sensitive) ==> AllConsistent(t, sensitive)
    ensures AllPlain(s) ==> AllPlain(t)
    ensures AllNamed(s) ==> AllNamed(t)
    ensures Agree(s, sensitive) ==> Agree(t, sensitive) && Entries(t, sensitive) == Entries(s, sensitive)
  {
    RepeatConsistent(s, i, t, sensitive);
    RepeatPlain(s, i, t);
    if Agree(s, sensitive) {
      RepeatAgrees(s, i, t, sensitive);
      RepeatEntries(s, i, t, sensitive);
    }
  }

  lemma RepeatConsistent(s: seq<Value>, i: nat, t: seq<Value>, sensitive: bool)
    requires i < |s| && t == [s[i]] + s
    ensures AllConsistent(s, sensitive) ==> AllConsistent(t, sensitive)
  {
    forall j | 0 <= j < |t| ensures t[j] == s[if j == 0 then i else j - 1] {}
  }

  lemma RepeatPlain(s: seq<Value>, i: nat, t: seq<Value>)
    requires i < |s| && t == [s[i]] + s
    ensures AllPlain(s) ==> AllPlain(t)
    ensures AllNamed(s) ==> AllNamed(t)
  {
    forall j | 0 <= j < |t| ensures t[j] == s[if j == 0 then i else j - 1] {}
  }

  lemma RepeatEntries(s: seq<Value>, i: nat, t: seq<Value>, sensitive: bool)
    requires i < |s| && t == [s[i]] + s && Agree(s, sensitive)
    ensures Entries(t, sensitive) == Entries(s, sensitive)
  {
    AgreeIsCovered(s, sensitive);
    assert t[1..] == s;
  }

  lemma RepeatAgrees(s: seq<Value>, i: nat, t: seq<Value>, sensitive: bool)
    requires i < |s| && t == [s[i]] + s && Agree(s, sensitive)
    ensures Agree(t, sensitive)
  {
    forall j, k | 0 <= j < |t| && 0 <= k < |t| && KeyOf(t[j], sensitive) == KeyOf(t[k], sensitive)
      ensures CanonOf(t[j], sensitive) == CanonOf(t[k], sensitive)
    {
      assert t[j] == s[if j == 0 then i else j - 1] && t[k] == s[if k == 0 then i else k - 1];
    }
  }

  /** And for every consistent object there is such a one: itself with any of its members once more. */
  lemma RepeatAccepted(v: Value, i: nat, sensitive: bool)
    requires Plain(v) && v.data.kind.ObjectKind? && i < |v.children|
    ensures Compare(v, v.(children := [v.children[i]] + v.children), sensitive) <==> Consistent(v, sensitive)
  {
    var w := v.(children := [v.children[i]] + v.children);
    RepeatMeansSame(v.children, i, w.children, sensitive);
    CompareIff(v, w, sensitive);
  }

  // ---- copies ----

  lemma {:induction false} OwnedAt(vs: seq<Value>, i: nat)
    requires i < |vs|
    ensures OwnedAll(vs)[i] == Owned(vs[i])
  {
    if i > 0 { OwnedAt(vs[1..], i - 1); }
  }

  /** Neither what a tree means nor its consistency depends on reference marks or on bytes behind a NUL. */
  lemma {:induction false} OwnedSame(v: Value, sensitive: bool)
    ensures SameMember(Owned(v), v, sensitive)
    decreases v
  {
    var s, t := v.children, OwnedAll(v.children);
    OwnedAllSame(s, sensitive);
    forall i | 0 <= i < |s| ensures SameMember(t[i], s[i], sensitive) {
      OwnedAt(s, i);
      OwnedSame(s[i], sensitive);
    }
    MemberwiseSame(t, s, sensitive);
    CopiedSame(v.data);
    SameRoot(Owned(v), v, sensitive);
  }

  lemma SameRoot(w: Value, v: Value, sensitive: bool)
    requires CopiedKind(w.data.kind) == CopiedKind(v.data.kind) && (w.data.name.Named? <==> v.data.name.Named?)
    requires v.data.name.Named? ==> CString(w.data.name.key) == CString(v.data.name.key)
    requires CanonAll(w.children, sensitive) == CanonAll(v.children, sensitive)
    requires Entries(w.children, sensitive) == Entries(v.children, sensitive)
    requires AllConsistent(w.children, sensitive) <==> AllConsistent(v.children, sensitive)
    requires AllPlain(w.children) <==> AllPlain(v.children)
    requires AllNamed(w.children) <==> AllNamed(v.children)
    requires Agree(w.children, sensitive) <==> Agree(v.children, sensitive)
    ensures SameMember(w, v, sensitive)
  {
    SameNode(w, v, sensitive);
    SameConsistent(w, v, sensitive);
    SamePlain(w, v);
  }

  lemma SameConsistent(w: Value, v: Value, sensitive: bool)
    requires CopiedKind(w.data.kind) == CopiedKind(v.data.kind)
    requires AllConsistent(w.children, sensitive) <==> AllConsistent(v.children, sensitive)
    requires Agree(w.children, sensitive) <==> Agree(v.children, sensitive)
    ensures Consistent(w, sensitive) <==> Consistent(v, sensitive)
  {
  }

  lemma SamePlain(w: Value, v: Value)
    requires CopiedKind(w.data.kind) == CopiedKind(v.data.kind)
    requires AllPlain(w.children) <==> AllPlain(v.children)
    requires AllNamed(w.children) <==> AllNamed(v.children)
    ensures Plain(w) <==> Plain(v)
  {
  }

  lemma CopiedSame(d: Data)
    ensures CopiedKind(Copied(d).kind) == CopiedKind(d.kind)
    ensures Copied(d).name.Named? <==> d.name.Named?
    ensures d.name.Named? ==> CString(Copied(d).name.key) == CString(d.name.key)
  {
  }

  lemma SameNode(w: Value, v: Value, sensitive: bool)
    requires CopiedKind(w.data.kind) == CopiedKind(v.data.kind)
    requires CanonAll(w.children, sensitive) == CanonAll(v.children, sensitive)
    requires Entries(w.children, sensitive) == Entries(v.children, sensitive)
    ensures CanonOf(w, sensitive) == CanonOf(v, sensitive)
  {
  }

  ghost predicate SameMember(x: Value, y: Value, sensitive: bool) {
    && (x.data.name.Named? <==> y.data.name.Named?) && KeyOf(x, sensitive) == KeyOf(y, sensitive)
    && CanonOf(x, sensitive) == CanonOf(y, sensitive)
    && (Consistent(x, sensitive) <==> Consistent(y, sensitive)) && (Plain(x) <==> Plain(y))
  }

  lemma MemberwiseSame(t: seq<Value>, s: seq<Value>, sensitive: bool)
    requires |s| == |t| && forall i :: 0 <= i < |s| ==> SameMember(t[i], s[i], sensitive)
    ensures AllConsistent(t, sensitive) <==> AllConsistent(s, sensitive)
    ensures AllPlain(t) <==> AllPlain(s)
    ensures AllNamed(t) <==> AllNamed(s)
    ensures Agree(t, sensitive) <==> Agree(s, sensitive)
  {
    forall i | 0 <= i < |s|
      ensures KeyOf(t[i], sensitive) == KeyOf(s[i], sensitive) && CanonOf(t[i], sensitive) == CanonOf(s[i], sensitive)
    {
      assert SameMember(t[i], s[i], sensitive);
    }
    if Agree(s, sensitive) { SameAgree(t, s, sensitive); }
    if Agree(t, sensitive) { SameAgree(s, t, sensitive); }
  }

  lemma SameAgree(t: seq<Value>, s: seq<Value>, sensitive: bool)
    requires |s| == |t| && Agree(s, sensitive)
    requires forall i :: 0 <= i < |s| ==>
               KeyOf(t[i], sensitive) == KeyOf(s[i], sensitive) && CanonOf(t[i], sensitive) == CanonOf(s[i], sensitive)
    ensures Agree(t, sensitive)
  {
  }

  lemma {:induction false} OwnedAllSame(s: seq<Value>, sensitive: bool)
    ensures |OwnedAll(s)| == |s| && CanonAll(OwnedAll(s), sensitive) == CanonAll(s, sensitive)
    ensures Entries(OwnedAll(s), sensitive) == Entries(s, sensitive)
    decreases s
  {
    if s != [] {
      OwnedSame(s[0], sensitive);
      OwnedAllSame(s[1..], sensitive);
      assert OwnedAll(s)[1..] == OwnedAll(s[1..]);
    }
  }

  /** Two different trees of the same contents compare if and only if those are consistent. */
  lemma EqualContents(v: Value, sensitive: bool)
    requires Plain(v)
    ensures Compare(v, v, sensitive) <==> Consistent(v, sensitive)
  {
    CompareIff(v, v, sensitive);
  }

  /** A tree and its copy compare equal exactly if the tree is consistent, at every depth; so always without repeats. */
  lemma CopyCompares(t: Shape, u: Shape, sensitive: bool)
    requires Contents(u) == Owned(Contents(t)) && Plain(Contents(t))
    ensures Compare(Contents(t), Contents(u), sensitive) <==> Consistent(Contents(t), sensitive)
    ensures UniqueNames(Contents(t), sensitive) ==> Compare(Contents(t), Contents(u), sensitive)
  {
    OwnedSame(Contents(t), sensitive);
    CompareIff(Contents(t), Contents(u), sensitive);
    if UniqueNames(Contents(t), sensitive) { UniqueIsConsistent(Contents(t), sensitive); }
  }

  function Int(n: int, key: seq<byte>): Value {
    Value(Data(NumberKind(Decimal(n, 0)), Named(key), false, false), [])
  }

  function ObjectOf(name: Name, members: seq<Value>): Value {
    Value(Data(ObjectKind, name, false, false), members)
  }

  /** Two members of one name that differ: the object is not consistent. */
  lemma TwoDiffer(name: Name, key: seq<byte>)
    ensures var v := ObjectOf(name, [Int(1, key), Int(2, key)]); Plain(v) && !Consistent(v, true)
  {
    var s := [Int(1, key), Int(2, key)];
    assert KeyOf(s[0], true) == KeyOf(s[1], true) && CanonOf(s[0], true) != CanonOf(s[1], true);
    assert !Agree(s, true);
  }

  /**
   Repeated names: an object is refused against another of the same contents, also below the root, and a longer
   object is accepted.
   */
  lemma Repeats(key: seq<byte>, outer: seq<byte>)
    ensures var v := ObjectOf(Unnamed, [Int(1, key), Int(2, key)]); !Compare(v, v, true)
    ensures var v := ObjectOf(Unnamed, [ObjectOf(Named(outer), [Int(1, key), Int(2, key)])]); !Compare(v, v, true)
    ensures Compare(ObjectOf(Unnamed, [Int(1, key)]), ObjectOf(Unnamed, [Int(1, key), Int(1, key)]), true)
  {
    TwoDiffer(Unnamed, key);
    EqualContents(ObjectOf(Unnamed, [Int(1, key), Int(2, key)]), true);
    DiffersBelow(key, outer);
    OneRepeated(Int(1, key));
  }

  lemma DiffersBelow(key: seq<byte>, outer: seq<byte>)
    ensures var v := ObjectOf(Unnamed, [ObjectOf(Named(outer), [Int(1, key), Int(2, key)])]); !Compare(v, v, true)
  {
    TwoDiffer(Named(outer), key);
    var v := ObjectOf(Unnamed, [ObjectOf(Named(outer), [Int(1, key), Int(2, key)])]);
    assert !Consistent(v.children[0], true);
    EqualContents(v, true);
  }

  lemma OneRepeated(m: Value)
    requires Plain(m) && Consistent(m, true) && m.data.name.Named?
    ensures Compare(ObjectOf(Unnamed, [m]), ObjectOf(Unnamed, [m, m]), true)
  {
    var short := ObjectOf(Unnamed, [m]);
    assert Consistent(short, true);
    RepeatAccepted(short, 0, true);
    assert [short.children[0]] + short.children == [m, m];
  }

  /** Bytes behind a NUL do not count: a string with one is accepted against the string in front of it. */
  lemma NulHides(s: seq<byte>, rest: seq<byte>, sensitive: bool)
    requires NUL !in s
    ensures var d := Data(StringKind(s + [NUL] + rest), Unnamed, false, false);
            && Compare(Value(d, []), Value(d.(kind := StringKind(s)), []), sensitive)
            && Owned(Value(d, [])) == Value(d.(kind := StringKind(s)), [])
  {
    CutAtNul(s, rest);
  }

  lemma {:induction false} CutAtNul(s: seq<byte>, rest: seq<byte>)
    requires NUL !in s
    ensures CString(s + [NUL] + rest) == s
  {
    if s != [] {
      assert (s + [NUL] + rest)[1..] == s[1..] + [NUL] + rest;
      CutAtNul(s[1..], rest);
    }
  }
}
