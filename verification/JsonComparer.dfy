/**
 Comparison as it runs on linked trees: two walks in step over arrays, a lookup for every member of an object, both
 ways, and a shortcut that accepts a node against itself without looking.
 */
module JsonComparer {
  import opened Bytes
  import opened JsonText
  import opened JsonList
  import opened JsonTree
  import opened JsonDuplicate
  import opened JsonCompare

  // ---- names ----

  /** A byte of a terminated string. */
  function At(s: seq<byte>, i: nat): byte {
    if i < |s| then s[i] else NUL
  }

  lemma {:induction false} NoNulYet(s: seq<byte>, i: nat)
    requires i <= |s| && NUL !in s[..i]
    ensures |CString(s)| >= i
    decreases i
  {
    if i > 0 {
      assert s[0] == s[..i][0] && s[1..][..i - 1] == s[..i][1..];
      NoNulYet(s[1..], i - 1);
    }
  }

  lemma CutAt(s: seq<byte>, i: nat)
    requires i <= |s| && NUL !in s[..i] && At(s, i) == NUL
    ensures CString(s) == s[..i]
  {
    NoNulYet(s, i);
    assert |CString(s)| == i;
  }

  lemma CutBeyond(s: seq<byte>, i: nat)
    requires i <= |s| && NUL !in s[..i] && At(s, i) != NUL
    ensures i < |CString(s)| && CString(s)[i] == s[i]
  {
    NoNulYet(s, i);
  }

  /** The loop of the case-insensitive string comparison. */
  method SameIgnoringCase(x: seq<byte>, y: seq<byte>) returns (same: bool)
    ensures same == (Fold(x, false) == Fold(y, false))
  {
    var i := 0;
    while Lower(At(x, i)) == Lower(At(y, i))
      invariant i <= |x| && i <= |y| && NUL !in x[..i] && NUL !in y[..i]
      invariant forall k :: 0 <= k < i ==> Lower(x[k]) == Lower(y[k])
      decreases |x| - i
    {
      if At(x, i) == NUL {
        CutAt(x, i);
        CutAt(y, i);
        assert LowerAll(x[..i]) == LowerAll(y[..i]);
        return true;
      }
      assert x[..i + 1] == x[..i] + [x[i]] && y[..i + 1] == y[..i] + [y[i]];
      i := i + 1;
    }
    Differ(x, y, i);
    return false;
  }

  lemma Differ(x: seq<byte>, y: seq<byte>, i: nat)
    requires i <= |x| && i <= |y| && NUL !in x[..i] && NUL !in y[..i] && Lower(At(x, i)) != Lower(At(y, i))
    ensures Fold(x, false) != Fold(y, false)
  {
    var p, q := LowerAll(CString(x)), LowerAll(CString(y));
    if At(x, i) == NUL {
      CutAt(x, i);
      CutBeyond(y, i);
      assert |p| != |q|;
    } else if At(y, i) == NUL {
      CutBeyond(x, i);
      CutAt(y, i);
      assert |p| != |q|;
    } else {
      CutBeyond(x, i);
      CutBeyond(y, i);
      assert p[i] != q[i];
    }
  }

  method SameName(x: seq<byte>, y: seq<byte>, sensitive: bool) returns (same: bool)
    ensures same == (Fold(x, sensitive) == Fold(y, sensitive))
  {
    if sensitive { return CString(x) == CString(y); }
    same := SameIgnoringCase(x, y);
  }

  // ---- trees ----

  lemma {:induction false} ContentsAt(ts: seq<Shape>, k: nat)
    requires k < |ts|
    ensures ContentsAll(ts)[k] == Contents(ts[k])
  {
    if k > 0 { ContentsAt(ts[1..], k - 1); }
  }

  lemma FindStep(s: seq<Value>, i: nat, key: seq<byte>, sensitive: bool)
    requires i < |s|
    ensures var f, rest := Find(s[i..], key, sensitive), 1 + Find(s[i + 1..], key, sensitive);
            match s[i].data.name
            case Unnamed => f == (if sensitive then |s| - i else rest)
            case Named(k) => f == if Fold(k, sensitive) == Fold(key, sensitive) then 0 else rest
  {
    assert s[i..][0] == s[i] && s[i..][1..] == s[i + 1..];
  }

  lemma ListsStep(s: seq<Value>, r: seq<Value>, k: nat, sensitive: bool)
    requires k < |s| && k < |r|
    ensures CompareLists(s[k..], r[k..], sensitive) <==>
            Compare(s[k], r[k], sensitive) && CompareLists(s[k + 1..], r[k + 1..], sensitive)
  {
    assert s[k..][0] == s[k] && s[k..][1..] == s[k + 1..] && r[k..][0] == r[k] && r[k..][1..] == r[k + 1..];
  }

  lemma WithinStep(s: seq<Value>, k: nat, r: seq<Value>, sensitive: bool)
    requires k < |s|
    ensures Within(s[k..], r, sensitive) <==> Meets(s[k], r, sensitive) && Within(s[k + 1..], r, sensitive)
  {
    assert s[k..][0] == s[k] && s[k..][1..] == s[k + 1..];
  }

  /** The child under a name, or null. */
  method GetObjectItem(parent: Item, name: Name, sensitive: bool, ghost t: Shape) returns (r: Item?, ghost i: nat)
    requires Tree(parent, t)
    ensures |parent.children| == |t.children|
    ensures i == if name.Named? then Find(ContentsAll(t.children), name.key, sensitive) else |t.children|
    ensures i <= |t.children| && r == if i < |t.children| then parent.children[i] else null
  {
    TreeList(parent, t);
    ghost var s := ContentsAll(t.children);
    if name.Unnamed? { return null, |t.children|; }
    r := parent.child;
    i := 0;
    while r != null
      invariant i <= |s| && r == if i < |s| then parent.children[i] else null
      invariant Find(s, name.key, sensitive) == i + Find(s[i..], name.key, sensitive)
      decreases |s| - i
    {
      ContentsAt(t.children, i);
      TreeChild(parent, t, i);
      TreeList(r, t.children[i]);
      FindStep(s, i, name.key, sensitive);
      if r.data.name.Unnamed? {
        if sensitive { return null, |s|; }
      } else {
        var same := SameName(r.data.name.key, name.key, sensitive);
        if same { return; }
      }
      r := r.next;
      i := i + 1;
    }
  }

  predicate SameType(k: Kind, l: Kind) {
    match k
    case NullKind => l.NullKind?
    case FalseKind => l.FalseKind?
    case TrueKind => l.TrueKind?
    case NumberKind(_) => l.NumberKind?
    case StringKind(_) => l.StringKind?
    case ArrayKind => l.ArrayKind?
    case ObjectKind => l.ObjectKind?
  }

  // ---- two nodes ----

  /** `u` is a proper part of `t`. */
  ghost predicate Inside(u: Shape, t: Shape)
    decreases t
  {
    exists k :: 0 <= k < |t.children| && (t.children[k] == u || Inside(u, t.children[k]))
  }

  /** The trees of two nodes, of one tree or of two: they do not overlap, or one is inside the other. */
  ghost predicate Related(t: Shape, u: Shape) {
    t.nodes !! u.nodes || Inside(u, t) || Inside(t, u)
  }

  lemma {:induction false} InsideNodes(a: Item, t: Shape, u: Shape)
    requires Tree(a, t) && Inside(u, t)
    ensures u.nodes <= t.nodes - {a}
    decreases t
  {
    var k :| 0 <= k < |t.children| && (t.children[k] == u || Inside(u, t.children[k]));
    TreeChild(a, t, k);
    if t.children[k] != u { InsideNodes(a.children[k], t.children[k], u); }
  }

  lemma {:induction false} InsideDeeper(u: Shape, t: Shape, j: nat)
    requires Inside(u, t) && j < |u.children|
    ensures Inside(u.children[j], t)
    decreases t
  {
    var k :| 0 <= k < |t.children| && (t.children[k] == u || Inside(u, t.children[k]));
    if t.children[k] != u { InsideDeeper(u, t.children[k], j); }
    assert Inside(u.children[j], t.children[k]);
  }

  lemma InsideChildren(a: Item, t: Shape, b: Item, u: Shape, i: nat, j: nat)
    requires Tree(a, t) && Tree(b, u) && Inside(u, t) && i < |t.children| && j < |u.children|
    ensures t.children[i].nodes !! u.children[j].nodes || Inside(u.children[j], t.children[i])
  {
    var k :| 0 <= k < |t.children| && (t.children[k] == u || Inside(u, t.children[k]));
    TreeChild(b, u, j);
    TreeChild(a, t, k);
    if t.children[k] != u {
      InsideNodes(a.children[k], t.children[k], u);
      InsideDeeper(u, t.children[k], j);
    }
    if i != k { assert Rooted(a, t); }
  }

  /** Comparing in step, the walks never meet in one node. */
  lemma RelatedChildren(a: Item, t: Shape, b: Item, u: Shape, i: nat, j: nat)
    requires Tree(a, t) && Tree(b, u) && Related(t, u) && i < |t.children| && j < |u.children|
    ensures Related(t.children[i], u.children[j])
  {
    if Inside(u, t) {
      InsideChildren(a, t, b, u, i, j);
    } else if Inside(t, u) {
      InsideChildren(b, u, a, t, j, i);
    } else {
      TreeChild(a, t, i);
      TreeChild(b, u, j);
    }
  }

  lemma RelatedDiffer(a: Item, t: Shape, b: Item, u: Shape)
    requires Tree(a, t) && Tree(b, u) && Related(t, u)
    ensures a != b
  {
    TreeList(a, t);
    TreeList(b, u);
    if Inside(u, t) {
      InsideNodes(a, t, u);
    } else if Inside(t, u) {
      InsideNodes(b, u, t);
    }
  }

  /**
   A node is always accepted against itself; two nodes, of one tree or of two, are accepted exactly if their contents
   compare.
   */
  method CompareItems(a: Item?, b: Item?, sensitive: bool, ghost t: Shape, ghost u: Shape) returns (same: bool)
    requires (a != null ==> Tree(a, t)) && (b != null ==> Tree(b, u))
    requires a == null || b == null || a == b || Related(t, u)
    ensures same == (a != null && b != null && (a == b || Compare(Contents(t), Contents(u), sensitive)))
    decreases Size(Contents(t)) + Size(Contents(u)), 0
  {
    if a == null || b == null { return false; }
    TreeList(a, t);
    TreeList(b, u);
    if !SameType(a.data.kind, b.data.kind) { return false; }
    if a == b { return true; }
    match a.data.kind
    case NumberKind(x) => return CloseTo(RealOf(x), RealOf(b.data.kind.value));
    case StringKind(x) => return CString(x) == CString(b.data.kind.text);
    case ArrayKind => same := CompareElements(a, b, sensitive, t, u);
    case ObjectKind =>
      same := CompareMembers(a, b, sensitive, t, u);
      if same { same := CompareMembers(b, a, sensitive, u, t); }
    case _ => return true;
  }

  /** What a child of a tree brings along. */
  lemma ChildOf(a: Item, t: Shape, k: nat)
    requires Tree(a, t) && k < |t.children|
    ensures |a.children| == |t.children| && Tree(a.children[k], t.children[k]) && t.children[k].nodes <= t.nodes
    ensures a.children[k].data == t.children[k].data && a.children[k].next == Following(a.children, k)
    ensures ContentsAll(t.children)[k] == Contents(t.children[k])
    ensures Size(Contents(t.children[k])) <= SizeAll(ContentsAll(t.children))
  {
    TreeChild(a, t, k);
    TreeList(a.children[k], t.children[k]);
    ContentsAt(t.children, k);
    SizeOfMember(ContentsAll(t.children), k);
  }

  method CompareElements(a: Item, b: Item, sensitive: bool, ghost t: Shape, ghost u: Shape) returns (same: bool)
    requires Tree(a, t) && Tree(b, u) && Related(t, u)
    ensures same == CompareLists(ContentsAll(t.children), ContentsAll(u.children), sensitive)
    decreases SizeAll(ContentsAll(t.children)) + SizeAll(ContentsAll(u.children)), 1
  {
    TreeList(a, t);
    TreeList(b, u);
    var x, y := a.child, b.child;
    ghost var k, s, r := 0, ContentsAll(t.children), ContentsAll(u.children);
    while x != null && y != null
      invariant k <= |s| && k <= |r|
      invariant x == (if k < |s| then a.children[k] else null) && y == if k < |r| then b.children[k] else null
      invariant CompareLists(s, r, sensitive) == CompareLists(s[k..], r[k..], sensitive)
      decreases |s| - k
    {
      ChildOf(a, t, k);
      ChildOf(b, u, k);
      ListsStep(s, r, k, sensitive);
      RelatedChildren(a, t, b, u, k, k);
      RelatedDiffer(x, t.children[k], y, u.children[k]);
      var equal := CompareItems(x, y, sensitive, t.children[k], u.children[k]);
      if !equal { return false; }
      x, y := x.next, y.next;
      k := k + 1;
    }
    return x == y;
  }

  /** Every member of `a` is looked up in `b` and compared with what is found. */
  method CompareMembers(a: Item, b: Item, sensitive: bool, ghost t: Shape, ghost u: Shape) returns (same: bool)
    requires Tree(a, t) && Tree(b, u) && Related(t, u)
    ensures same == Within(ContentsAll(t.children), ContentsAll(u.children), sensitive)
    decreases SizeAll(ContentsAll(t.children)) + SizeAll(ContentsAll(u.children)), 2
  {
    TreeList(a, t);
    var x := a.child;
    ghost var k, s, r := 0, ContentsAll(t.children), ContentsAll(u.children);
    while x != null
      invariant k <= |s| && x == if k < |s| then a.children[k] else null
      invariant Within(s, r, sensitive) == Within(s[k..], r, sensitive)
      decreases |s| - k
    {
      ChildOf(a, t, k);
      WithinStep(s, k, r, sensitive);
      forall j | 0 <= j < |u.children| ensures Related(t.children[k], u.children[j]) {
        RelatedChildren(a, t, b, u, k, j);
      }
      var found := CompareMember(x, b, sensitive, t.children[k], u);
      if !found { return false; }
      x := x.next;
      k := k + 1;
    }
    return true;
  }

  method CompareMember(x: Item, b: Item, sensitive: bool, ghost t: Shape, ghost u: Shape) returns (same: bool)
    requires Tree(x, t) && Tree(b, u) && forall j :: 0 <= j < |u.children| ==> Related(t, u.children[j])
    ensures same == Meets(Contents(t), ContentsAll(u.children), sensitive)
    decreases Size(Contents(t)) + SizeAll(ContentsAll(u.children)), 1
  {
    TreeList(x, t);
    var y;
    ghost var j;
    y, j := GetObjectItem(b, x.data.name, sensitive, u);
    if y == null { return false; }
    ChildOf(b, u, j);
    RelatedDiffer(x, t, y, u.children[j]);
    same := CompareItems(x, y, sensitive, t, u.children[j]);
  }

  /**
   A node against itself, and against a copy of it: the first is always accepted, the second exactly if members of
   one name mean the same at every depth.
   */
  method CompareWithCopy(item: Item, sensitive: bool, ghost t: Shape) returns (self: bool, copied: bool)
    requires Tree(item, t) && Plain(Contents(t))
    ensures self && (copied <==> Consistent(Contents(t), sensitive))
  {
    self := CompareItems(item, item, sensitive, t, t);
    var copy;
    ghost var u;
    copy, u := Duplicate(item, true, t);
    copied := CompareItems(item, copy, sensitive, t, u);
    CopyCompares(t, u, sensitive);
  }
}
