/**
 Trees of nodes: the contents of a tree without its links, the nodes that hold them, and what it takes to hang
 children onto a parent one after the other.
 */
module JsonTree {
  import opened Bytes
  import opened JsonText
  import opened JsonList

  /** The contents of a tree, without its links. */
  datatype Value = Value(data: Data, children: seq<Value>)

  /** The contents together with the nodes that hold them. */
  datatype Shape = Shape(data: Data, nodes: set<Item>, children: seq<Shape>)

  function Contents(t: Shape): Value {
    Value(t.data, ContentsAll(t.children))
  }

  function ContentsAll(ts: seq<Shape>): (vs: seq<Value>)
    ensures |vs| == |ts|
  {
    if ts == [] then [] else [Contents(ts[0])] + ContentsAll(ts[1..])
  }

  lemma {:induction false} ContentsAppend(ts: seq<Shape>, t: Shape)
    ensures ContentsAll(ts + [t]) == ContentsAll(ts) + [Contents(t)]
  {
    if ts == [] {
      assert [t][1..] == [];
    } else {
      assert (ts + [t])[1..] == ts[1..] + [t];
      ContentsAppend(ts[1..], t);
    }
  }

  // ---- the contents of a JSON value ----

  function KindOf(v: Json): Kind {
    match v
    case Null => NullKind
    case False => FalseKind
    case True => TrueKind
    case Number(d) => NumberKind(d)
    case String(s) => StringKind(s)
    case Array(_) => ArrayKind
    case Object(_) => ObjectKind
  }

  /** A value as the contents of a tree, under a name if it is a member of an object. */
  function ValueOf(v: Json, name: Name): Value
    decreases v
  {
    Value(Data(KindOf(v), name, false, false), ChildrenOf(v))
  }

  function ChildrenOf(v: Json): seq<Value>
    decreases v, 0
  {
    match v
    case Array(items) => ValuesOf(items)
    case Object(members) => MembersOf(members)
    case _ => []
  }

  function ValuesOf(items: seq<Json>): (vs: seq<Value>)
    ensures |vs| == |items|
    decreases items
  {
    if items == [] then [] else [ValueOf(items[0], Unnamed)] + ValuesOf(items[1..])
  }

  function MembersOf(members: seq<Member>): (vs: seq<Value>)
    ensures |vs| == |members|
    decreases members
  {
    if members == [] then [] else [MemberOf(members[0])] + MembersOf(members[1..])
  }

  function MemberOf(m: Member): Value
    decreases m
  {
    ValueOf(m.value, Named(m.key))
  }

  lemma ValueOfArray(items: seq<Json>, name: Name)
    ensures ValueOf(Array(items), name) == Value(Data(ArrayKind, name, false, false), ValuesOf(items))
  {
    assert ChildrenOf(Array(items)) == ValuesOf(items);
  }

  lemma ValueOfObject(members: seq<Member>, name: Name)
    ensures ValueOf(Object(members), name) == Value(Data(ObjectKind, name, false, false), MembersOf(members))
  {
    assert ChildrenOf(Object(members)) == MembersOf(members);
  }

  lemma {:induction false} ValuesAppend(items: seq<Json>, v: Json)
    ensures ValuesOf(items + [v]) == ValuesOf(items) + [ValueOf(v, Unnamed)]
  {
    if items == [] {
      assert [v][1..] == [];
    } else {
      assert (items + [v])[1..] == items[1..] + [v];
      ValuesAppend(items[1..], v);
    }
  }

  lemma {:induction false} MembersAppend(members: seq<Member>, m: Member)
    ensures MembersOf(members + [m]) == MembersOf(members) + [MemberOf(m)]
  {
    if members == [] {
      assert [m][1..] == [];
    } else {
      assert (members + [m])[1..] == members[1..] + [m];
      MembersAppend(members[1..], m);
    }
  }

  // ---- the JSON value of contents ----

  function KeyText(name: Name): seq<byte> {
    match name case Named(key) => CString(key) case Unnamed => []
  }

  /** The value a printer makes of a tree: strings end at the first NUL, and a missing name counts as empty. */
  function JsonOf(v: Value): Json
    decreases v
  {
    match v.data.kind
    case NullKind => Null
    case FalseKind => False
    case TrueKind => True
    case NumberKind(d) => Number(d)
    case StringKind(text) => String(CString(text))
    case ArrayKind => Array(JsonAll(v.children))
    case ObjectKind => Object(JsonMembers(v.children))
  }

  function JsonAll(vs: seq<Value>): (r: seq<Json>)
    ensures |r| == |vs|
    decreases vs
  {
    if vs == [] then [] else [JsonOf(vs[0])] + JsonAll(vs[1..])
  }

  function JsonMembers(vs: seq<Value>): (r: seq<Member>)
    ensures |r| == |vs|
    decreases vs
  {
    if vs == [] then [] else [Member(KeyText(vs[0].data.name), JsonOf(vs[0]))] + JsonMembers(vs[1..])
  }

  lemma {:induction false} JsonAt(ts: seq<Shape>, k: nat)
    requires k < |ts|
    ensures JsonAll(ContentsAll(ts))[k] == JsonOf(Contents(ts[k]))
  {
    if k > 0 { JsonAt(ts[1..], k - 1); }
  }

  lemma {:induction false} JsonMemberAt(ts: seq<Shape>, k: nat)
    requires k < |ts|
    ensures JsonMembers(ContentsAll(ts))[k] == Member(KeyText(ts[k].data.name), JsonOf(Contents(ts[k])))
  {
    if k > 0 { JsonMemberAt(ts[1..], k - 1); }
  }

  // ---- the nodes of a tree ----

  /** `n` is the root of a tree of shape `t`. Its own place in a list is not part of it. */
  ghost predicate Tree(n: Item, t: Shape)
    reads n`data, n`child, n`children, t.nodes - {n}
    decreases t, 1
  {
    Rooted(n, t)
  }

  ghost predicate Rooted(n: Item, t: Shape)
    reads n`data, n`child, n`children, t.nodes - {n}
    decreases t, 0
  {
    && n in t.nodes && n.data == t.data
    && Layout(n.children, t.children, t.nodes - {n})
    && n.Valid()
    && (forall i :: 0 <= i < |n.children| ==> Tree(n.children[i], t.children[i]))
  }

  /** Each root belongs to its tree, the trees lie within `nodes` and do not overlap. */
  ghost predicate Layout(roots: seq<Item>, ts: seq<Shape>, nodes: set<Item>) {
    && |roots| == |ts|
    && (forall i :: 0 <= i < |ts| ==> roots[i] in ts[i].nodes && ts[i].nodes <= nodes)
    && (forall i, j :: 0 <= i < j < |ts| ==> ts[i].nodes !! ts[j].nodes)
  }

  ghost predicate Trees(roots: seq<Item>, ts: seq<Shape>, nodes: set<Item>)
    requires Layout(roots, ts, nodes)
    reads nodes
  {
    forall i :: 0 <= i < |ts| ==> Tree(roots[i], ts[i])
  }

  lemma TreeList(n: Item, t: Shape)
    requires Tree(n, t)
    ensures |n.children| == |t.children| && n.child == First(n.children) && n in t.nodes && n.data == t.data
  {
    assert Rooted(n, t);
  }

  lemma TreeChild(n: Item, t: Shape, k: nat)
    requires Tree(n, t) && k < |t.children|
    ensures |n.children| == |t.children| && Tree(n.children[k], t.children[k])
    ensures t.children[k].nodes <= t.nodes - {n} && n.children[k].next == Following(n.children, k)
  {
    assert Rooted(n, t);
  }

  /** Nodes in a row with the trees under them, and all nodes of those. */
  datatype Row = Row(roots: seq<Item>, ts: seq<Shape>, nodes: set<Item>)

  const NO_NODES := Row([], [], {})

  function Extended(row: Row, n: Item, w: Shape): Row {
    Row(row.roots + [n], row.ts + [w], row.nodes + w.nodes)
  }

  /** Chained one after the other; the first does not yet point back to the last. */
  ghost predicate Chain(roots: seq<Item>)
    reads roots`next, roots`prev
  {
    && (forall k {:trigger roots[k].next} :: 0 <= k < |roots| ==> roots[k].next == Following(roots, k))
    && (forall k {:trigger roots[k].prev} :: 0 <= k < |roots| ==>
          roots[k].prev == if k > 0 then roots[k - 1] else null)
  }

  ghost function Last(s: seq<Item>): Item? {
    if s == [] then null else s[|s| - 1]
  }

  /** A row of complete trees, chained. */
  ghost predicate Lined(row: Row)
    reads row.nodes, row.roots`next, row.roots`prev
  {
    Layout(row.roots, row.ts, row.nodes) && Trees(row.roots, row.ts, row.nodes) && Chain(row.roots)
  }

  lemma LayoutAppend(roots: seq<Item>, ts: seq<Shape>, nodes: set<Item>, n: Item, w: Shape)
    requires Layout(roots, ts, nodes) && n in w.nodes && w.nodes !! nodes
    ensures Layout(roots + [n], ts + [w], nodes + w.nodes)
  {
  }

  /** Links `n` behind `last`. */
  method Link(last: Item?, n: Item, ghost row: Row)
    requires Lined(row) && n !in row.nodes && n.next == null && n.prev == null && last == Last(row.roots)
    modifies Just(last)`next, n`prev
    ensures Layout(row.roots, row.ts, row.nodes) && Trees(row.roots, row.ts, row.nodes) && Chain(row.roots + [n])
  {
    if last != null {
      Suffix(last, n);
    }
    forall k | 0 <= k < |row.ts| ensures Tree(row.roots[k], row.ts[k]) {
      assert last !in row.ts[k].nodes - {row.roots[k]};
    }
  }

  /** The linked node carries a complete tree: the row is longer by one. */
  lemma RowGrows(row: Row, n: Item, w: Shape)
    requires Layout(row.roots, row.ts, row.nodes) && Trees(row.roots, row.ts, row.nodes) && Chain(row.roots + [n])
    requires n in w.nodes && Tree(n, w) && w.nodes !! row.nodes
    ensures Lined(Extended(row, n, w))
  {
    LayoutAppend(row.roots, row.ts, row.nodes, n, w);
  }

  /** Points the first child back to the last. */
  method Close(parent: Item, last: Item?, ghost row: Row) returns (ghost u: Shape)
    requires Lined(row) && parent !in row.nodes && parent.child == First(row.roots) && last == Last(row.roots)
    modifies parent`children, Just(parent.child)`prev
    ensures u == Shape(parent.data, row.nodes + {parent}, row.ts) && Tree(parent, u)
  {
    if parent.child != null {
      parent.child.prev := last;
    }
    parent.children := row.roots;
    u := Shape(parent.data, row.nodes + {parent}, row.ts);
    forall k | 0 <= k < |row.ts| ensures Tree(row.roots[k], row.ts[k]) {
      assert parent.child != null ==> parent.child !in row.ts[k].nodes - {row.roots[k]};
    }
    assert u.nodes - {parent} == row.nodes;
    assert parent.Valid();
    assert Rooted(parent, u);
  }
}
