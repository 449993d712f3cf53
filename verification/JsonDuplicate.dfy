/**
 Copying a tree node by node: the copy has the same contents, shares no node with the original, and every
 child list in it is well formed.
 */
module JsonDuplicate {
  import opened Bytes
  import opened JsonText
  import opened JsonList
  import opened JsonTree

  /**
   What a copy of a node holds. A copy owns it, so it is never marked as a reference; strings are copied up to the
   first NUL, but a constant name is shared.
   */
  function Copied(d: Data): Data {
    Data(CopiedKind(d.kind), if d.constName then d.name else CopiedName(d.name), false, d.constName)
  }

  function CopiedKind(k: Kind): Kind {
    match k case StringKind(text) => StringKind(CString(text)) case _ => k
  }

  function CopiedName(n: Name): Name {
    match n case Named(key) => Named(CString(key)) case Unnamed => Unnamed
  }

  /** The contents of a copy. */
  function Owned(v: Value): Value {
    Value(Copied(v.data), OwnedAll(v.children))
  }

  function OwnedAll(vs: seq<Value>): (ws: seq<Value>)
    ensures |ws| == |vs|
  {
    if vs == [] then [] else [Owned(vs[0])] + OwnedAll(vs[1..])
  }

  // ---- what copying keeps ----

  /** No node borrows its contents. */
  predicate NoReferences(v: Value) {
    !v.data.reference && AllWithoutReferences(v.children)
  }

  predicate AllWithoutReferences(vs: seq<Value>) {
    vs == [] || (NoReferences(vs[0]) && AllWithoutReferences(vs[1..]))
  }

  predicate NoNul(d: Data) {
    (d.kind.StringKind? ==> NUL !in d.kind.text) && (d.name.Named? ==> NUL !in d.name.key)
  }

  predicate NoNuls(v: Value) {
    NoNul(v.data) && AllWithoutNuls(v.children)
  }

  predicate AllWithoutNuls(vs: seq<Value>) {
    vs == [] || (NoNuls(vs[0]) && AllWithoutNuls(vs[1..]))
  }

  /** A tree that owns its contents, without NULs in its strings, is copied as it is, whatever its numbers and names. */
  lemma {:induction false} CopyIsIdentity(v: Value)
    requires NoReferences(v) && NoNuls(v)
    ensures Owned(v) == v
    decreases v, 1
  {
    CopiesAreIdentities(v.children);
  }

  lemma {:induction false} CopiesAreIdentities(vs: seq<Value>)
    requires AllWithoutReferences(vs) && AllWithoutNuls(vs)
    ensures OwnedAll(vs) == vs
    decreases vs, 0
  {
    if vs != [] {
      CopyIsIdentity(vs[0]);
      CopiesAreIdentities(vs[1..]);
    }
  }

  /**
   Any other tree is copied as one that prints as the same value and owns its contents. A constant name is shared, any
   other is what is in front of its first NUL.
   */
  lemma {:induction false} CopyShowsSame(v: Value)
    ensures JsonOf(Owned(v)) == JsonOf(v) && KeyText(Owned(v).data.name) == KeyText(v.data.name)
    ensures NoReferences(Owned(v)) && Owned(v).data.constName == v.data.constName
    ensures var n := Owned(v).data.name;
            if v.data.constName then n == v.data.name
            else n.Named? == v.data.name.Named? && (n.Named? ==> NUL !in n.key)
    decreases v, 1
  {
    CopiesShowSame(v.children);
  }

  lemma {:induction false} CopiesShowSame(vs: seq<Value>)
    ensures JsonAll(OwnedAll(vs)) == JsonAll(vs) && JsonMembers(OwnedAll(vs)) == JsonMembers(vs)
    ensures AllWithoutReferences(OwnedAll(vs))
    decreases vs, 0
  {
    if vs != [] {
      CopyShowsSame(vs[0]);
      CopiesShowSame(vs[1..]);
    }
  }

  /** `us` are copies of the first of the trees `ts`. */
  ghost predicate Copies(us: seq<Shape>, ts: seq<Shape>) {
    |us| <= |ts| && forall k :: 0 <= k < |us| ==> Contents(us[k]) == Owned(Contents(ts[k]))
  }

  lemma CopiesGrow(us: seq<Shape>, w: Shape, ts: seq<Shape>)
    requires Copies(us, ts) && |us| < |ts| && Contents(w) == Owned(Contents(ts[|us|]))
    ensures Copies(us + [w], ts)
  {
  }

  lemma {:induction false} CopiesAreOwned(us: seq<Shape>, ts: seq<Shape>)
    requires Copies(us, ts) && |us| == |ts|
    ensures ContentsAll(us) == OwnedAll(ContentsAll(ts))
  {
    if us != [] {
      assert forall k :: 0 <= k < |us[1..]| ==> us[1..][k] == us[k + 1] && ts[1..][k] == ts[k + 1];
      CopiesAreOwned(us[1..], ts[1..]);
    }
  }

  lemma CopyIsOwned(t: Shape, u: Shape)
    requires u.data == Copied(t.data) && |u.children| == |t.children| && Copies(u.children, t.children)
    ensures Contents(u) == Owned(Contents(t))
  {
    CopiesAreOwned(u.children, t.children);
  }

  /** Hangs the complete tree `n` onto `copy` as the next child, behind `last`. */
  method Attach(copy: Item, last: Item?, n: Item, ghost row: Row, ghost w: Shape)
    requires Lined(row) && last == Last(row.roots)
    requires n in w.nodes && Tree(n, w) && w.nodes !! row.nodes && n.next == null && n.prev == null
    requires copy !in row.nodes + w.nodes
    modifies copy`child, Just(last)`next, n`prev
    ensures Lined(Extended(row, n, w)) && copy.child == if row.roots == [] then n else old(copy.child)
  {
    Link(last, n, row);
    if last == null {
      copy.child := n;
    }
    assert Tree(n, w);
    RowGrows(row, n, w);
  }

  method Duplicate(item: Item, recurse: bool, ghost t: Shape) returns (copy: Item, ghost u: Shape)
    requires Tree(item, t)
    ensures Tree(copy, u) && copy in u.nodes && fresh(u.nodes) && copy.next == null && copy.prev == null
    ensures Contents(u) == if recurse then Owned(Contents(t)) else Value(Copied(t.data), [])
    decreases t, 1
  {
    copy := new Item(Copied(item.data));
    TreeList(item, t);
    if recurse {
      ghost var row;
      var last;
      last, row := DuplicateChildren(item, copy, t);
      u := Close(copy, last, row);
      CopyIsOwned(t, u);
    } else {
      u := Shape(copy.data, {copy}, []);
      assert Rooted(copy, u);
    }
  }

  /** Walks the original's children and hangs a copy of each onto `copy`. */
  method DuplicateChildren(item: Item, copy: Item, ghost t: Shape) returns (last: Item?, ghost row: Row)
    requires Tree(item, t) && copy !in t.nodes && copy.child == null
    modifies copy`child
    ensures copy.child == First(row.roots) && last == Last(row.roots)
    ensures Lined(row) && copy !in row.nodes && fresh(row.nodes)
    ensures |row.ts| == |t.children| && Copies(row.ts, t.children)
    decreases t, 0
  {
    TreeList(item, t);
    var child := item.child;
    last := null;
    row := NO_NODES;
    while child != null
      invariant |row.roots| <= |item.children| == |t.children| && Tree(item, t)
      invariant child == if |row.roots| < |item.children| then item.children[|row.roots|] else null
      invariant copy.child == First(row.roots) && last == Last(row.roots)
      invariant Lined(row) && copy !in row.nodes && fresh(row.nodes)
      invariant Copies(row.ts, t.children)
      decreases |item.children| - |row.roots|
    {
      ghost var i := |row.roots|;
      TreeChild(item, t, i);
      last, row := DuplicateChild(child, copy, last, row, t.children);
      child := child.next;
    }
  }

  method DuplicateChild(child: Item, copy: Item, last: Item?, ghost row: Row, ghost ts: seq<Shape>)
      returns (n: Item, ghost longer: Row)
    requires Lined(row) && copy !in row.nodes && last == Last(row.roots) && copy.child == First(row.roots)
    requires Copies(row.ts, ts) && |row.ts| < |ts| && Tree(child, ts[|row.ts|])
    modifies copy`child, Just(last)`next
    ensures Lined(longer) && |longer.roots| == |row.roots| + 1
    ensures n == Last(longer.roots) && copy.child == First(longer.roots)
    ensures copy !in longer.nodes && fresh(longer.nodes - row.nodes)
    ensures Copies(longer.ts, ts)
    decreases ts[|row.ts|], 2
  {
    ghost var w;
    n, w := Duplicate(child, true, ts[|row.ts|]);
    Attach(copy, last, n, row, w);
    longer := Extended(row, n, w);
    CopiesGrow(row.ts, w, ts);
  }
}
