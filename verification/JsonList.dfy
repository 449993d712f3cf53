/**
 The intrusive child list of a container: a forward chain ended by null, every `prev` the predecessor, and the
 first child's `prev` the last child. The editing operations refine the operations on the sequence of children.
 */
module JsonList {
  import opened Bytes
  import opened JsonText

  /**
   What a node carries besides its links: its type with the payload, its name in an object, and the two flags
   kept beside the type, for a node that borrows its contents and for a name that is a constant.
   */
  datatype Data = Data(kind: Kind, name: Name, reference: bool, constName: bool)
  datatype Kind = NullKind | FalseKind | TrueKind | NumberKind(value: Decimal) | StringKind(text: seq<byte>)
    | ArrayKind | ObjectKind
  datatype Name = Unnamed | Named(key: seq<byte>)

  class Item {
    var data: Data
    var next: Item?
    var prev: Item?
    var child: Item?
    /** The children in order, for specification. */
    ghost var children: seq<Item>

    ghost predicate Apart(s: seq<Item>) {
      this !in s && forall i, j :: 0 <= i < j < |s| ==> s[i] != s[j]
    }

    /** Following the links from `child` gives exactly the items `s`, as a well-formed list. */
    ghost predicate Lists(s: seq<Item>)
      reads this`child, s
    {
      Apart(s) && child == First(s) && Links(s)
    }

    ghost predicate Valid()
      reads this`child, this`children, children
    {
      Lists(children)
    }

    constructor (contents: Data)
      ensures Valid() && data == contents && children == [] && next == null && prev == null
    {
      data := contents;
      next, prev, child := null, null, null;
      children := [];
    }

    method Get(index: nat) returns (r: Item?)
      requires Valid()
      ensures r == if index < |children| then children[index] else null
    {
      var left: int := index;
      r := child;
      ghost var i := 0;
      while r != null && left > 0
        invariant 0 <= left && left + i == index && i <= |children|
        invariant r == if i < |children| then children[i] else null
      {
        left := left - 1;
        r := r.next;
        i := i + 1;
      }
    }

    // Why links are no well-formed list, of whatever items.

    /** What a walk along `next` from the first item meets. */
    ghost predicate Walk(t: seq<Item>)
      reads this`child, t`next
    {
      t != [] && t[0] == child && forall k {:trigger t[k].next} :: 0 <= k < |t| - 1 ==> t[k].next == t[k + 1]
    }

    lemma {:induction false} WalkIsPrefix(t: seq<Item>, s: seq<Item>)
      requires Walk(t) && Lists(s)
      ensures |t| <= |s| && forall k :: 0 <= k < |t| ==> t[k] == s[k]
    {
      if |t| > 1 {
        var u := t[..|t| - 1];
        assert forall k {:trigger u[k].next} :: 0 <= k < |u| - 1 ==> u[k] == t[k] && u[k + 1] == t[k + 1];
        WalkIsPrefix(u, s);
        var k := |u| - 1;
        assert t[k] == u[k] == s[k] && t[k].next == t[k + 1];
      }
    }

    lemma PointsBack(s: seq<Item>, k: nat)
      requires Lists(s) && 0 < k < |s|
      ensures s[k].prev == s[k - 1]
    {
    }

    lemma LastEnds(s: seq<Item>)
      requires Lists(s)
      ensures child != null ==> child.prev != null && child.prev.next == null
    {
      if child != null {
        assert s[0].prev == Preceding(s, 0);
        assert s[|s| - 1].next == Following(s, |s| - 1);
      }
    }

    lemma Loops(t: seq<Item>, a: nat, b: nat)
      requires Walk(t) && a < b < |t| && t[a] == t[b]
      ensures forall s :: !Lists(s)
    {
      forall s: seq<Item> | Lists(s) ensures false { WalkIsPrefix(t, s); }
    }

    lemma MeetsItself(t: seq<Item>)
      requires Walk(t) && this in t
      ensures forall s :: !Lists(s)
    {
      forall s: seq<Item> | Lists(s) ensures false { WalkIsPrefix(t, s); }
    }

    lemma PointsAstray(t: seq<Item>, k: nat)
      requires Walk(t) && 0 < k < |t| && t[k].prev != t[k - 1]
      ensures forall s :: !Lists(s)
    {
      forall s: seq<Item> | Lists(s) ensures false {
        WalkIsPrefix(t, s);
        PointsBack(s, k);
      }
    }

    lemma LastGoesOn()
      requires child != null && child.prev != null && child.prev.next != null
      ensures forall s :: !Lists(s)
    {
      forall s: seq<Item> | Lists(s) ensures false { LastEnds(s); }
    }

    /**
     Appends `item`. The links come out as a well-formed list exactly when the item was not in it and did not
     point on to something else: the code clears its `next` only for an empty list.
     */
    method Add(item: Item?) returns (ok: bool)
      requires Valid()
      modifies this`child, this`children, children`next, children`prev, Just(item)`next, Just(item)`prev
      ensures ok == (item != null && item != this)
      ensures !ok ==> Valid() && children == old(children)
      ensures ok ==> ((exists s :: Lists(s)) <==>
                      item !in old(children) && (old(children) == [] || old(item.next) == null))
      ensures ok && (exists s :: Lists(s)) ==> Valid() && children == old(children) + [item]
    {
      if item == null || item == this { return false; }
      if child == null {
        child := item;
        item.prev := item;
        item.next := null;
      } else {
        Suffix(child.prev, item);
        child.prev := item;
      }
      ghost var s := children;
      children := children + [item];
      assert children[|children| - 1] == item;
      if item !in s && (s == [] || old(item.next) == null) {
        assert Lists(children);
      } else {
        LastGoesOn();
      }
      return true;
    }

    // What each operation does to the links, node by node of the sequence `s` before it, and why that is a
    // well-formed list again.

    lemma Detached(s: seq<Item>, i: nat)
      requires Apart(s) && i < |s| && children == s[..i] + s[i + 1..] && child == First(children)
      requires forall k {:trigger s[k].next} :: 0 <= k < |s| && k != i ==>
                 s[k].next == if k + 1 == i then Following(s, i) else Following(s, k)
      requires forall k {:trigger s[k].prev} :: 0 <= k < |s| && k != i ==>
                 s[k].prev == if k == i + 1 || (k == 0 && i + 1 == |s|) then Preceding(s, i) else Preceding(s, k)
      ensures Valid()
    {
      forall j | 0 <= j < |children|
        ensures children[j].next == Following(children, j) && children[j].prev == Preceding(children, j)
      {
        var k := if j < i then j else j + 1;
        assert children[j] == s[k];
      }
    }

    lemma Inserted(s: seq<Item>, i: nat, item: Item)
      requires Apart(s) && i < |s| && item != this && item !in s && children == s[..i] + [item] + s[i..]
      requires child == First(children) && item.next == s[i] && item.prev == Preceding(s, i)
      requires forall k {:trigger s[k].next} :: 0 <= k < |s| ==>
                 s[k].next == if k + 1 == i then item else Following(s, k)
      requires forall k {:trigger s[k].prev} :: 0 <= k < |s| ==> s[k].prev == if k == i then item else Preceding(s, k)
      ensures Valid()
    {
      InsertApart(s, i, item);
      var t := children;
      assert t[|t| - 1] == s[|s| - 1];
      forall j | 0 <= j < |t| && j != i
        ensures t[j].next == Following(t, j) && t[j].prev == Preceding(t, j)
      {
        var k := if j < i then j else j - 1;
        assert t[j] == s[k];
        assert j + 1 < |t| ==> t[j + 1] == if j + 1 == i then item else s[k + 1];
        assert j > 0 ==> t[j - 1] == if j == i + 1 then item else s[k - 1];
      }
      assert t[i] == item;
    }

    lemma InsertApart(s: seq<Item>, i: nat, item: Item)
      requires Apart(s) && i < |s| && item != this && item !in s
      ensures Apart(s[..i] + [item] + s[i..])
    {
      var t := s[..i] + [item] + s[i..];
      forall a, b | 0 <= a < b < |t| ensures t[a] != t[b] {
        assert a != i ==> t[a] == s[if a < i then a else a - 1];
        assert b != i ==> t[b] == s[if b < i then b else b - 1];
      }
    }

    lemma Replaced(s: seq<Item>, i: nat, item: Item)
      requires Apart(s) && i < |s| && item != this && item !in s && children == s[i := item] && Exchanged(s, i, item)
      ensures Valid()
    {
      forall j | 0 <= j < |children| && j != i
        ensures children[j].next == Following(children, j) && children[j].prev == Preceding(children, j)
      {
        assert children[j] == s[j];
      }
    }

    /** Takes `item` out of the list and clears its links. */
    method Detach(item: Item?) returns (r: Item?)
      requires Valid() && (item != null ==> item in children)
      modifies this`child, this`children, children`next, children`prev
      ensures Valid() && r == item
      ensures item == null ==> children == old(children)
      ensures item != null ==> children == Without(old(children), item) && item.next == null && item.prev == null
    {
      if item == null { return null; }
      ghost var s, i := children, Position(children, item);
      Unlink(item, s, i, Ranks(s));
      children := Without(children, item);
      Detached(s, i);
      return item;
    }

    method Unlink(item: Item, ghost s: seq<Item>, ghost i: nat, ghost rank: map<Item, nat>)
      requires i < |s| && item == s[i] && Ranked(s, rank) && this !in s && child == s[0]
      requires Links(s)
      modifies this`child, s`next, s`prev
      ensures child == if i == 0 then Following(s, 0) else s[0]
      ensures item.next == null && item.prev == null
      ensures forall k {:trigger s[k].next} :: 0 <= k < |s| && k != i ==>
                s[k].next == if k + 1 == i then Following(s, i) else Following(s, k)
      ensures forall k {:trigger s[k].prev} :: 0 <= k < |s| && k != i ==>
                s[k].prev == if k == i + 1 || (k == 0 && i + 1 == |s|) then Preceding(s, i) else Preceding(s, k)
    {
      if item != child {
        item.prev.next := item.next;
      }
      if item.next != null {
        item.next.prev := item.prev;
      }
      if item == child {
        child := item.next;
      } else if item.next == null {
        child.prev := item.prev;
      }
      item.prev := null;
      item.next := null;
    }

    method DetachAt(which: int) returns (r: Item?)
      requires Valid()
      modifies this`child, this`children, children`next, children`prev
      ensures Valid()
      ensures 0 <= which < |old(children)| ==>
                r == old(children)[which] && children == old(children)[..which] + old(children)[which + 1..]
      ensures !(0 <= which < |old(children)|) ==> r == null && children == old(children)
    {
      if which < 0 { return null; }
      var item := Get(which);
      r := Detach(item);
    }

    /** An item that is neither the container itself nor among the given items. */
    ghost predicate Foreign(s: seq<Item>, item: Item) {
      item !in s && item != this
    }

    /**
     Inserts before position `which`, or appends if there is none. Before a position the code refuses neither the
     container nor an item already listed; the links are a well-formed list exactly if the item is neither.
     */
    method Insert(which: int, item: Item?) returns (ok: bool)
      requires Valid()
      modifies this`child, this`children, children`next, children`prev, Just(item)`next, Just(item)`prev
      ensures ok == (which >= 0 && item != null && (which < |old(children)| || item != this))
      ensures !ok ==> Valid() && children == old(children)
      ensures ok && which < |old(children)| ==>
                && ((exists s :: Lists(s)) <==> Foreign(old(children), item))
                && ((exists s :: Lists(s)) ==>
                    Valid() && children == old(children)[..which] + [item] + old(children)[which..])
      ensures ok && which >= |old(children)| ==>
                && ((exists s :: Lists(s)) <==>
                    item !in old(children) && (old(children) == [] || old(item.next) == null))
                && ((exists s :: Lists(s)) ==> Valid() && children == old(children) + [item])
    {
      if which < 0 || item == null { return false; }
      var after := Get(which);
      if after == null {
        ok := Add(item);
        return;
      }
      if after != child && after.prev == null { return false; }
      ghost var s := children;
      LinkBefore(after, item, s, which, Ranks(s));
      children := s[..which] + [item] + s[which..];
      if Foreign(s, item) {
        Inserted(s, which, item);
        assert Lists(children);
      } else {
        NotInserted(s, which, item);
      }
      return true;
    }

    method LinkBefore(after: Item, item: Item, ghost s: seq<Item>, ghost i: nat, ghost rank: map<Item, nat>)
      requires i < |s| && after == s[i] && Ranked(s, rank) && this !in s && child == s[0]
      requires Links(s)
      modifies this`child, s`next, s`prev, item`next, item`prev
      ensures child == if i == 0 then item else s[0]
      ensures item.next == if item == s[i] || (i > 0 && item == s[i - 1]) then item else s[i]
      ensures item.prev == if item == s[i] then item else Preceding(s, i)
      ensures forall k {:trigger s[k].next} :: 0 <= k < |s| && s[k] != item ==>
                s[k].next == if k + 1 == i then item else Following(s, k)
      ensures forall k {:trigger s[k].prev} :: 0 <= k < |s| && s[k] != item ==>
                s[k].prev == if k == i then item else Preceding(s, k)
    {
      item.next := after;
      item.prev := after.prev;
      after.prev := item;
      if after == child {
        child := item;
      } else {
        item.prev.next := item;
      }
    }

    /** The walk meets the inserted item twice, or the container, or an item that points back to another. */
    lemma NotInserted(s: seq<Item>, i: nat, item: Item)
      requires Apart(s) && i < |s| && !Foreign(s, item) && child == if i == 0 then item else s[0]
      requires item.next == if item == s[i] || (i > 0 && item == s[i - 1]) then item else s[i]
      requires item.prev == if item == s[i] then item else Preceding(s, i)
      requires forall k {:trigger s[k].next} :: 0 <= k < |s| && s[k] != item ==>
                 s[k].next == if k + 1 == i then item else Following(s, k)
      ensures forall t :: !Lists(t)
    {
      if item == this {
        MeetsItself(s[..i] + [item]);
      } else {
        var j := Position(s, item);
        if j == i {
          Loops(s[..i + 1] + [item], i, i + 1);
        } else if j + 1 == i {
          Loops(s[..i] + [item], j, i);
        } else if j > i {
          Loops(s[..i] + [item] + s[i..j + 1], i, j + 1);
        } else if j > 0 {
          PointsAstray(s[..j + 1], j);
        } else {
          assert s[i - 1].next == item;
          LastGoesOn();
        }
      }
    }

    /**
     Puts `replacement` where `item` was. The code refuses neither the container nor another listed item as the
     replacement. The links are a well-formed list exactly if it is neither, or if the last of three or more items
     is replaced by the first: then they list that one item, and those between are lost.
     */
    method Replace(item: Item?, replacement: Item?) returns (ok: bool)
      requires Valid() && (item != null && children != [] ==> item in children)
      modifies this`child, this`children, children`next, children`prev, Just(replacement)`next, Just(replacement)`prev
      ensures ok == (item != null && replacement != null && old(children) != [])
      ensures !ok || item == replacement ==> Valid() && children == old(children)
      ensures ok && item != replacement ==>
                && ((exists s :: Lists(s)) <==>
                    Foreign(old(children), replacement) || LastByFirst(old(children), item, replacement))
                && ((exists s :: Lists(s)) ==> Valid())
                && ((exists s :: Lists(s)) ==>
                    children == if replacement in old(children) then [replacement]
                                else old(children)[Position(old(children), item) := replacement])
    {
      if child == null || replacement == null || item == null { return false; }
      if replacement == item { return true; }
      ghost var s, i := children, Position(children, item);
      Exchange(item, replacement, s, i, Ranks(s));
      if Foreign(s, replacement) {
        children := s[i := replacement];
        Replaced(s, i, replacement);
        assert Lists(children);
      } else if LastByFirst(s, item, replacement) {
        children := [replacement];
        assert Lists(children);
      } else {
        NotReplaced(s, i, replacement);
      }
      return true;
    }

    ghost predicate LastByFirst(s: seq<Item>, item: Item, replacement: Item) {
      |s| >= 3 && replacement == s[0] && item == s[|s| - 1]
    }

    method Exchange(item: Item, replacement: Item, ghost s: seq<Item>, ghost i: nat, ghost rank: map<Item, nat>)
      requires i < |s| && item == s[i] && Ranked(s, rank) && this !in s && child == s[0] && item != replacement
      requires Links(s)
      modifies this`child, s`next, s`prev, replacement`next, replacement`prev
      ensures Exchanged(s, i, replacement)
    {
      replacement.next := item.next;
      replacement.prev := item.prev;
      if replacement.next != null {
        replacement.next.prev := replacement;
      }
      if child == item {
        if child.prev == child {
          replacement.prev := replacement;
        }
        child := replacement;
      } else {
        if replacement.prev != null {
          replacement.prev.next := replacement;
        }
        if replacement.next == null {
          child.prev := replacement;
        }
      }
      item.next := null;
      item.prev := null;
    }

    /** The links once `s[i]` is replaced by `r`, wherever `r` was before. */
    ghost predicate Exchanged(s: seq<Item>, i: nat, r: Item)
      requires i < |s|
      reads this`child, s, r
    {
      var after, before := i + 1 < |s| && r == s[i + 1], i > 0 && r == s[i - 1];
      && child == (if i == 0 then r else s[0]) && s[i].next == null && s[i].prev == null
      && r.next == (if after || before then r else Following(s, i))
      && r.prev == (if after || |s| == 1 || LastByFirst(s, s[i], r) then r else Preceding(s, i))
      && (forall k {:trigger s[k].next} :: 0 <= k < |s| && k != i && s[k] != r ==>
            s[k].next == if k + 1 == i && !after then r else Following(s, k))
      && (forall k {:trigger s[k].prev} :: 0 <= k < |s| && k != i && s[k] != r ==>
            s[k].prev == if k == i + 1 || (k == 0 && i + 1 == |s| && !before) then r else Preceding(s, k))
    }

    lemma NotReplaced(s: seq<Item>, i: nat, r: Item)
      requires Apart(s) && i < |s| && s[i] != r && Exchanged(s, i, r)
      requires !Foreign(s, r) && !LastByFirst(s, s[i], r)
      ensures forall t :: !Lists(t)
    {
      if r == this {
        MeetsItself(s[..i] + [r]);
      } else {
        var j := Position(s, r);
        if j == i + 1 && i == 0 {
          Loops([r, r], 0, 1);
        } else if j == i + 1 {
          PointsAstray(s[..i + 1], i);
        } else if j + 1 == i {
          Loops(s[..i] + [r], j, i);
        } else if j > i {
          Loops(s[..i] + [r] + s[i + 1..j + 1], i, j);
        } else if j > 0 {
          PointsAstray(s[..j + 1], j);
        } else {
          assert s[i - 1].next == r;
          LastGoesOn();
        }
      }
    }
  }

  ghost predicate Links(s: seq<Item>)
    reads s
  {
    && (forall i {:trigger s[i].next} :: 0 <= i < |s| ==> s[i].next == Following(s, i))
    && (forall i {:trigger s[i].prev} :: 0 <= i < |s| ==> s[i].prev == Preceding(s, i))
  }

  /** No item twice, in a form that needs one index at a time. */
  ghost predicate Ranked(s: seq<Item>, rank: map<Item, nat>) {
    forall k :: 0 <= k < |s| ==> s[k] in rank && rank[s[k]] == k
  }

  ghost function Ranks(s: seq<Item>): (rank: map<Item, nat>)
    requires forall i, j :: 0 <= i < j < |s| ==> s[i] != s[j]
    ensures Ranked(s, rank)
  {
    map x | x in s :: Position(s, x)
  }

  /** The index of an item in the list. */
  ghost function Position(s: seq<Item>, item: Item): (i: nat)
    requires item in s
    ensures i < |s| && s[i] == item
  {
    if s[0] == item then 0 else 1 + Position(s[1..], item)
  }

  ghost function Without(s: seq<Item>, item: Item): seq<Item>
    requires item in s
  {
    var i := Position(s, item);
    s[..i] + s[i + 1..]
  }

  method Suffix(last: Item, item: Item)
    modifies last`next, item`prev
    ensures last.next == item && item.prev == last
    ensures last.prev == old(last.prev) || last == item
    ensures item.next == old(item.next) || last == item
  {
    last.next := item;
    item.prev := last;
  }

  ghost function Just(item: Item?): set<Item> {
    if item == null then {} else {item}
  }

  ghost function First(s: seq<Item>): Item? {
    if s == [] then null else s[0]
  }

  ghost function Following(s: seq<Item>, i: nat): Item?
    requires i < |s|
  {
    if i + 1 < |s| then s[i + 1] else null
  }

  ghost function Preceding(s: seq<Item>, i: nat): Item?
    requires i < |s|
  {
    if i > 0 then s[i - 1] else s[|s| - 1]
  }
}
