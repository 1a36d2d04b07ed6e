/**
 Deleting a tree: the node is taken out of its parent's list, its children are deleted one after
 the other, and the node is freed. What is freed is exactly the subtree, and everything that stays
 is in order.
 */
module JsonDelete {
  import opened JsonText
  import opened JsonLinks
  import opened JsonNode
  import opened JsonTree

  // ----- The nodes of a tree -----

  ghost function Subtree(S: set<Node>, n: Node, v: Json): set<Node>
    reads S`children, S`keys
    requires Rep(S, n, v)
    decreases v
  {
    {n} + if v.Coll? then SubtreeKids(S, n.children, n.keys, v.kids) else {}
  }

  ghost function SubtreeKids(S: set<Node>, cs: seq<Node>, ks: seq<Key>, kids: Kids): set<Node>
    reads S`children, S`keys
    requires RepKids(S, cs, ks, kids)
    decreases kids
  {
    if kids.Nil? then {} else Subtree(S, cs[0], kids.value) + SubtreeKids(S, cs[1..], ks[1..], kids.next)
  }

  function Weight(v: Json): (w: nat)
    ensures w > 0
    decreases v
  {
    1 + if v.Coll? then KidsWeight(v.kids) else 0
  }

  function KidsWeight(kids: Kids): nat
    decreases kids
  {
    if kids.Nil? then 0 else Weight(kids.value) + KidsWeight(kids.next)
  }

  /** A node stands for one value only. */
  lemma {:induction false} RepUnique(S: set<Node>, n: Node, v: Json, w: Json)
    requires Rep(S, n, v) && Rep(S, n, w)
    ensures v == w
    decreases v
  {
    if v.Coll? { RepKidsUnique(S, n.children, n.keys, v.kids, w.kids); }
  }

  lemma {:induction false} RepKidsUnique(S: set<Node>, cs: seq<Node>, ks: seq<Key>, a: Kids, b: Kids)
    requires RepKids(S, cs, ks, a) && RepKids(S, cs, ks, b)
    ensures a == b
    decreases a
  {
    if a.Kid? {
      RepUnique(S, cs[0], a.value, b.value);
      RepKidsUnique(S, cs[1..], ks[1..], a.next, b.next);
    }
  }

  /** A node below another one stands for a smaller value, and its nodes are among the other's. */
  lemma {:induction false} Below(S: set<Node>, n: Node, v: Json, x: Node) returns (w: Json)
    requires Rep(S, n, v) && x in Subtree(S, n, v)
    ensures Rep(S, x, w) && Weight(w) <= Weight(v) && (x != n ==> Weight(w) < Weight(v))
    ensures x in S
    decreases v
  {
    if x == n {
      w := v;
    } else {
      w := BelowKids(S, n.children, n.keys, v.kids, x);
    }
  }

  lemma {:induction false} BelowKids(S: set<Node>, cs: seq<Node>, ks: seq<Key>, kids: Kids, x: Node) returns (w: Json)
    requires RepKids(S, cs, ks, kids) && x in SubtreeKids(S, cs, ks, kids)
    ensures Rep(S, x, w) && Weight(w) <= KidsWeight(kids) && x in S
    decreases kids
  {
    if x in Subtree(S, cs[0], kids.value) {
      w := Below(S, cs[0], kids.value, x);
    } else {
      w := BelowKids(S, cs[1..], ks[1..], kids.next, x);
    }
  }

  /** No node is below its own children. */
  lemma NotBelowItself(S: set<Node>, n: Node, v: Json)
    requires Rep(S, n, v) && v.Coll?
    ensures n !in SubtreeKids(S, n.children, n.keys, v.kids)
  {
    if n in SubtreeKids(S, n.children, n.keys, v.kids) {
      var w := BelowKids(S, n.children, n.keys, v.kids, n);
      RepUnique(S, n, v, w);
      assert false;
    }
  }

  /** The parent of a node below `n` is below `n`, or `n` itself. */
  lemma {:induction false} ParentBelow(S: set<Node>, n: Node, v: Json, x: Node)
    requires Good(S) && Rep(S, n, v) && x in Subtree(S, n, v) && x != n
    ensures x in S && x.parent != null && x.parent in Subtree(S, n, v)
    decreases v
  {
    hide Inv;
    ParentBelowKids(S, n.children, n.keys, v.kids, n, 0, x);
  }

  lemma {:induction false} ParentBelowKids(S: set<Node>, cs: seq<Node>, ks: seq<Key>, kids: Kids, n: Node, i: nat,
                                           x: Node)
    requires Good(S) && n in S && i <= |n.children| && cs == n.children[i..] && RepKids(S, cs, ks, kids)
    requires x in SubtreeKids(S, cs, ks, kids)
    ensures x in S && x.parent != null && (x.parent == n || x.parent in SubtreeKids(S, cs, ks, kids))
    decreases kids
  {
    hide Inv;
    if x in Subtree(S, cs[0], kids.value) {
      if x == cs[0] {
        WalkList(S, n, i);
      } else {
        ParentBelow(S, cs[0], kids.value, x);
      }
    } else {
      ParentBelowKids(S, cs[1..], ks[1..], kids.next, n, i + 1, x);
    }
  }

  /** Two trees with a common node: the root of one lies in the other. */
  lemma {:induction false} Meet(S: set<Node>, a: Node, va: Json, b: Node, vb: Json, x: Node)
    requires Good(S) && Rep(S, a, va) && Rep(S, b, vb) && x in Subtree(S, a, va) && x in Subtree(S, b, vb)
    ensures a in Subtree(S, b, vb) || b in Subtree(S, a, va)
    decreases va
  {
    hide Inv;
    if x != a { MeetKids(S, a.children, a.keys, va.kids, a, 0, b, vb, x); }
  }

  lemma {:induction false} MeetKids(S: set<Node>, cs: seq<Node>, ks: seq<Key>, kids: Kids, a: Node, i: nat, b: Node,
                                    vb: Json, x: Node)
    requires Good(S) && a in S && i <= |a.children| && cs == a.children[i..] && RepKids(S, cs, ks, kids)
    requires Rep(S, b, vb) && x in SubtreeKids(S, cs, ks, kids) && x in Subtree(S, b, vb)
    ensures a in Subtree(S, b, vb) || b in SubtreeKids(S, cs, ks, kids)
    decreases kids
  {
    hide Inv;
    if x in Subtree(S, cs[0], kids.value) {
      Meet(S, cs[0], kids.value, b, vb, x);
      WalkList(S, a, i);
      if cs[0] in Subtree(S, b, vb) && cs[0] != b { ParentBelow(S, b, vb, cs[0]); }
    } else {
      MeetKids(S, cs[1..], ks[1..], kids.next, a, i + 1, b, vb, x);
    }
  }

  /** Siblings have no node in common. */
  lemma SiblingsApart(S: set<Node>, n: Node, i: nat, va: Json, j: nat, vb: Json, x: Node)
    requires Good(S) && n in S && i < |n.children| && j < |n.children| && i != j
    requires Rep(S, n.children[i], va) && Rep(S, n.children[j], vb)
    requires n !in Subtree(S, n.children[i], va) && n !in Subtree(S, n.children[j], vb)
    ensures !(x in Subtree(S, n.children[i], va) && x in Subtree(S, n.children[j], vb))
  {
    hide Inv, Rep, Subtree;
    var a, b := n.children[i], n.children[j];
    if x in Subtree(S, a, va) && x in Subtree(S, b, vb) {
      Meet(S, a, va, b, vb, x);
      WalkList(S, n, i);
      WalkList(S, n, j);
      ChildrenDiffer(S, n, i, j);
      if a in Subtree(S, b, vb) { ParentBelow(S, b, vb, a); } else { ParentBelow(S, a, va, b); }
      assert false;
    }
  }

  lemma ChildrenDiffer(S: set<Node>, n: Node, i: nat, j: nat)
    requires Good(S) && n in S && i < |n.children| && j < |n.children| && i != j
    ensures n.children[i] != n.children[j]
  {
    Both(Snapshot(S), n);
    hide Inv;
  }

  /** A child has no node in common with those behind it. */
  lemma {:induction false} FirstApart(S: set<Node>, n: Node, i: nat, va: Json, j: nat, cs: seq<Node>, ks: seq<Key>,
                                      kids: Kids, x: Node)
    requires Good(S) && n in S && i < j <= |n.children| && cs == n.children[j..] && RepKids(S, cs, ks, kids)
    requires Rep(S, n.children[i], va) && n !in Subtree(S, n.children[i], va) && n !in SubtreeKids(S, cs, ks, kids)
    ensures !(x in Subtree(S, n.children[i], va) && x in SubtreeKids(S, cs, ks, kids))
    decreases kids
  {
    hide Inv, Subtree;
    if kids.Kid? {
      SiblingsApart(S, n, i, va, j, kids.value, x);
      FirstApart(S, n, i, va, j + 1, cs[1..], ks[1..], kids.next, x);
    }
  }

  /** A tree does not depend on nodes outside it. */
  lemma {:induction false} RepWithout(S: set<Node>, T: set<Node>, n: Node, v: Json)
    requires Rep(S, n, v) && T <= S && Subtree(S, n, v) <= T
    ensures Rep(T, n, v) && Subtree(T, n, v) == Subtree(S, n, v)
    decreases v
  {
    if v.Coll? { RepKidsWithout(S, T, n.children, n.keys, v.kids); }
  }

  lemma {:induction false} RepKidsWithout(S: set<Node>, T: set<Node>, cs: seq<Node>, ks: seq<Key>, kids: Kids)
    requires RepKids(S, cs, ks, kids) && T <= S && SubtreeKids(S, cs, ks, kids) <= T
    ensures RepKids(T, cs, ks, kids) && SubtreeKids(T, cs, ks, kids) == SubtreeKids(S, cs, ks, kids)
    decreases kids
  {
    if kids.Kid? {
      RepWithout(S, T, cs[0], kids.value);
      RepKidsWithout(S, T, cs[1..], ks[1..], kids.next);
    }
  }

  lemma {:induction false} SubtreeInside(S: set<Node>, n: Node, v: Json)
    requires Rep(S, n, v)
    ensures Subtree(S, n, v) <= S
  {
    forall x | x in Subtree(S, n, v) ensures x in S { var w := Below(S, n, v, x); }
  }

  lemma {:induction false} SubtreeKidsInside(S: set<Node>, cs: seq<Node>, ks: seq<Key>, kids: Kids)
    requires RepKids(S, cs, ks, kids)
    ensures SubtreeKids(S, cs, ks, kids) <= S
  {
    forall x | x in SubtreeKids(S, cs, ks, kids) ensures x in S { var w := BelowKids(S, cs, ks, kids, x); }
  }

  lemma {:induction false} RepWith(S: set<Node>, T: set<Node>, n: Node, v: Json)
    requires Rep(T, n, v) && T <= S
    ensures Rep(S, n, v) && Subtree(S, n, v) == Subtree(T, n, v)
    decreases v
  {
    if v.Coll? { RepKidsWith(S, T, n.children, n.keys, v.kids); }
  }

  lemma {:induction false} RepKidsWith(S: set<Node>, T: set<Node>, cs: seq<Node>, ks: seq<Key>, kids: Kids)
    requires RepKids(T, cs, ks, kids) && T <= S
    ensures RepKids(S, cs, ks, kids) && SubtreeKids(S, cs, ks, kids) == SubtreeKids(T, cs, ks, kids)
    decreases kids
  {
    if kids.Kid? {
      RepWith(S, T, cs[0], kids.value);
      RepKidsWith(S, T, cs[1..], ks[1..], kids.next);
    }
  }

  /** The child at position `i` stands for a lighter value than the whole list. */
  lemma {:induction false} ChildValue(S: set<Node>, cs: seq<Node>, ks: seq<Key>, kids: Kids, c: Node) returns (w: Json)
    requires RepKids(S, cs, ks, kids) && c in cs
    ensures Rep(S, c, w) && Weight(w) <= KidsWeight(kids)
    decreases kids
  {
    if c == cs[0] { w := kids.value; } else { w := ChildValue(S, cs[1..], ks[1..], kids.next, c); }
  }

  /** The parent of a node is not below it. */
  lemma ParentAbove(S: set<Node>, n: Node, v: Json, p: Node)
    requires Good(S) && Rep(S, n, v) && p in S && n in p.children
    ensures p !in Subtree(S, n, v)
  {
    hide Inv;
    if p in Subtree(S, n, v) {
      var w := Below(S, n, v, p);
      WalkList(S, p, 0);
      var u := ChildValue(S, p.children, p.keys, w.kids, n);
      RepUnique(S, n, v, u);
      assert false;
    }
  }

  // ----- Freeing -----

  /** A node with no parent and no children can go. */
  lemma DropKeepsInv<Id>(m: Nodes<Id>, n: Id)
    requires Inv(m) && n in m && m[n].up == Root() && m[n].list.children == []
    ensures Inv(m - {n})
  {
    hide ListOk, UpOk;
    var w := m - {n};
    forall x | x in w ensures ListOk(w, x) && UpOk(w, x) { DropAt(m, n, x); }
  }

  lemma DropAt<Id>(m: Nodes<Id>, n: Id, x: Id)
    requires Inv(m) && n in m && m[n].up == Root() && m[n].list.children == [] && x in m && x != n
    ensures ListOk(m - {n}, x) && UpOk(m - {n}, x)
  {
    hide Inv, HeadOk, Hang, ListOk;
    Both(m, x);
    var w := m - {n};
    forall i | 0 <= i < |m[x].list.children| ensures var c := m[x].list.children[i]; c in w && m[c].up == w[c].up {
      ChildIsBelow(m, x, m[x].list.children[i]);
    }
    SameList(m, w, x);
  }

  /** All children of a node are in place. */
  lemma ChildrenInside(S: set<Node>, n: Node)
    requires Good(S) && n in S
    ensures |n.keys| == |n.children| && forall c :: c in n.children ==> c in S
  {
    hide Inv, Hang;
    Both(Snapshot(S), n);
  }

  /** What detaching `n` does to the list and the parent of another node. */
  lemma RemoveEffect<Id>(m: Nodes<Id>, n: Id, x: Id)
    requires Inv(m) && n in m && m[n].up.parent.Yes? && x in m
    ensures Attached(m, n)
    ensures var w := Remove(m, n); var p := m[n].up.parent.id;
            && w[n].up == Root()
            && (x != n ==> w[x].up.parent == m[x].up.parent && w[x].up.key == m[x].up.key)
            && (x != p ==> w[x].list.children == m[x].list.children && w[x].list.keys == m[x].list.keys)
            && w[p].list.children == Without(m[p].list.children, IndexOf(m[p].list.children, n))
            && w[p].list.keys == Without(m[p].list.keys, IndexOf(m[p].list.children, n))
  {
    hide Inv, Remove, IndexOf, HeadOk, Hang, Without;
    AttachedOk(m, n);
    HangsOff(m, n);
    RemoveAt(m, n, n);
    RemoveAt(m, n, x);
    RemoveAt(m, n, m[n].up.parent.id);
  }

  /** What `json_remove_from_parent` leaves alone: all lists but one, all parents but one. */
  method DetachLists(n: Node, ghost S: set<Node>)
    requires Good(S) && n in S
    modifies S
    ensures Good(S) && n.parent == null
    ensures forall x :: x in S && x != n ==> x.parent == old(x.parent) && x.key == old(x.key)
    ensures forall x :: x in S && x != old(n.parent) ==> x.children == old(x.children) && x.keys == old(x.keys)
    ensures LostChild(old(n.parent), n, old(if n.parent != null then n.parent.children else []),
                      old(if n.parent != null then n.parent.keys else []))
  {
    hide Inv, Remove, ListOk, UpOk, IndexOf, HeadOk, Hang, Attached, Without;
    ghost var m, p := Snapshot(S), n.parent;
    if p != null {
      PlaceInList(m, n);
      ChildrenInside(S, p);
    }
    RemoveFromParent(n, S);
    if p == null { assert forall x :: x in S ==> x.Links() == m[x] && m[x] == old(x.Links()); }
    forall x | x in S && p != null
      ensures x != n ==> x.parent == old(x.parent) && x.key == old(x.key)
      ensures x != p ==> x.children == old(x.children) && x.keys == old(x.keys)
      ensures n.parent == null && LostChild(p, n, m[p].list.children, m[p].list.keys)
    {
      RemoveEffect(m, n, x);
      assert x.Links() == Snapshot(S)[x] && p.Links() == Snapshot(S)[p] && n.Links() == Snapshot(S)[n];
    }
  }

  /** `p`, if there is one, had the children `cs` with keys `ks`, and has them still, except for `n`. */
  ghost predicate LostChild(p: Node?, n: Node, cs: seq<Node>, ks: seq<Key>)
    reads p
  {
    p != null ==>
      && n in cs && |ks| == |cs| && p.children == Without(cs, IndexOf(cs, n)) && p.keys == Without(ks, IndexOf(cs, n))
  }

  lemma Inside(S: set<Node>, n: Node, v: Json)
    requires Rep(S, n, v)
    ensures n in S && n in Subtree(S, n, v) && Subtree(S, n, v) <= S
  {
    SubtreeInside(S, n, v);
  }

  method DetachTree(n: Node, ghost S: set<Node>, ghost v: Json)
    requires Good(S) && Rep(S, n, v)
    modifies S
    ensures Good(S) && n.parent == null
    ensures Rep(S, n, v) && Subtree(S, n, v) == old(Subtree(S, n, v))
    ensures forall x :: x in S && x != n ==> x.parent == old(x.parent) && x.key == old(x.key)
    ensures forall x :: x in S && x != old(n.parent) ==> x.children == old(x.children) && x.keys == old(x.keys)
    ensures LostChild(old(n.parent), n, old(if n.parent != null then n.parent.children else []),
                      old(if n.parent != null then n.parent.keys else []))
    ensures old(n.parent) != null ==> old(n.parent) in S - old(Subtree(S, n, v))
  {
    hide Inv, IndexOf, Without, Rep, Subtree;
    ghost var p, D := n.parent, Subtree(S, n, v);
    Inside(S, n, v);
    RepWithout(S, D, n, v);
    if p != null {
      PlaceInList(Snapshot(S), n);
      ParentAbove(S, n, v, p);
    }
    DetachLists(n, S);
    RepWith(S, D, n, v);
  }

  lemma WithoutFirst<T>(s: seq<T>)
    requires s != []
    ensures IndexOf(s, s[0]) == 0 && Without(s, 0) == s[1..]
  {
  }

  /**
   `json_delete`: exactly the nodes of the tree are freed, each once, and none is looked at after
   that. Every other node of `S` keeps its place, key and children, except that the parent of `n`
   loses this one child; `T` are those others, and they are in order.
   */
  method Delete(h: Heap, n: Node, ghost S: set<Node>, ghost v: Json) returns (ghost T: set<Node>)
    requires Good(S) && Rep(S, n, v) && S <= h.live
    modifies h, S
    ensures h.live == old(h.live - Subtree(S, n, v))
    ensures T == S - old(Subtree(S, n, v)) && Good(T)
    ensures forall x :: x in T ==> x.parent == old(x.parent) && x.key == old(x.key)
    ensures forall x :: x in T && x != old(n.parent) ==> x.children == old(x.children) && x.keys == old(x.keys)
    ensures LostChild(old(n.parent), n, old(if n.parent != null then n.parent.children else []),
                      old(if n.parent != null then n.parent.keys else []))
    ensures old(n.parent) != null ==> old(n.parent) in T
    decreases v, 1
  {
    hide Inv, IndexOf, Without, RepKids, SubtreeKids;
    Inside(S, n, v);
    DetachTree(n, S, v);
    T := S;
    if n.IsColl() {
      T := DeleteChildren(h, n, S, v);
    } else {
      NoChildren(S, n);
    }
    WithoutRoot(T, n);
    T := T - {n};
    h.Free(n);
  }

  lemma WithoutRoot(T: set<Node>, n: Node)
    requires Good(T) && n in T && n.parent == null && n.children == []
    ensures Good(T - {n})
  {
    hide Inv;
    RootLinks(T, n);
    DropKeepsInv(Snapshot(T), n);
    assert Snapshot(T) - {n} == Snapshot(T - {n});
  }

  lemma NoChildren(S: set<Node>, n: Node)
    requires Good(S) && n in S && !n.IsColl()
    ensures n.children == []
  {
    hide Inv;
    Both(Snapshot(S), n);
  }

  lemma RootLinks(S: set<Node>, n: Node)
    requires Good(S) && n in S && n.parent == null
    ensures n.Links().up == Root()
  {
    hide Inv;
    Both(Snapshot(S), n);
  }

  lemma NothingLeft(S: set<Node>, ks: seq<Key>, kids: Kids)
    requires RepKids(S, [], ks, kids)
    ensures SubtreeKids(S, [], ks, kids) == {}
  {
  }

  /** Where a walk over the children goes after the first one. */
  lemma WalkNext(S: set<Node>, n: Node, kids: Kids)
    requires Good(S) && n in S && RepKids(S, n.children, n.keys, kids) && n.children != []
    ensures kids.Kid? && n.children[0] in S
    ensures n.children[0].next == (if n.children[1..] == [] then null else n.children[1..][0])
  {
    WalkList(S, n, 0);
  }

  /** The first child's nodes, the other children's, and `n` are apart. */
  lemma SplitFirst(S: set<Node>, n: Node, kids: Kids)
    requires Good(S) && n in S && RepKids(S, n.children, n.keys, kids) && kids.Kid?
    requires n !in SubtreeKids(S, n.children, n.keys, kids)
    ensures var cs, ks := n.children, n.keys;
            && cs != [] && ks != [] && Rep(S, cs[0], kids.value) && RepKids(S, cs[1..], ks[1..], kids.next)
            && n !in Subtree(S, cs[0], kids.value) && n !in SubtreeKids(S, cs[1..], ks[1..], kids.next)
            && SubtreeKids(S, cs, ks, kids)
               == Subtree(S, cs[0], kids.value) + SubtreeKids(S, cs[1..], ks[1..], kids.next)
            && Subtree(S, cs[0], kids.value) !! SubtreeKids(S, cs[1..], ks[1..], kids.next)
            && SubtreeKids(S, cs[1..], ks[1..], kids.next) <= S
  {
    hide Inv, Subtree;
    var cs, ks := n.children, n.keys;
    SubtreeKidsInside(S, cs[1..], ks[1..], kids.next);
    forall x | x in Subtree(S, cs[0], kids.value) ensures x !in SubtreeKids(S, cs[1..], ks[1..], kids.next) {
      FirstApart(S, n, 0, kids.value, 1, cs[1..], ks[1..], kids.next, x);
    }
  }

  /** One round of the loop: the first child goes, the others stand for what they stood for. */
  method DeleteFirst(h: Heap, n: Node, child: Node, ghost S: set<Node>, ghost kids: Kids, ghost w: Json)
    returns (ghost T: set<Node>)
    requires Good(S) && n in S && RepKids(S, n.children, n.keys, kids) && kids.Kid? && w == kids.value
    requires n !in SubtreeKids(S, n.children, n.keys, kids)
    requires n.children != [] && child == n.children[0] && S <= h.live
    modifies h, S
    ensures T <= S && n in T && Good(T) && h.live == old(h.live) - (S - T)
    ensures n.children == old(n.children[1..])
    ensures RepKids(T, n.children, n.keys, kids.next)
    ensures T - SubtreeKids(T, n.children, n.keys, kids.next) == old(S - SubtreeKids(S, n.children, n.keys, kids))
    ensures forall x :: x in T ==> x.parent == old(x.parent) && x.key == old(x.key)
    ensures forall x :: x in T && x != n ==> x.children == old(x.children) && x.keys == old(x.keys)
    decreases w, 2
  {
    hide Inv, IndexOf, Without, Rep, RepKids, Subtree, SubtreeKids;
    ghost var cs, ks := n.children, n.keys;
    SplitFirst(S, n, kids);
    ghost var R := SubtreeKids(S, cs[1..], ks[1..], kids.next);
    RepKidsWithout(S, R, cs[1..], ks[1..], kids.next);
    WalkList(S, n, 0);
    WithoutFirst(cs);
    assert |ks| == |cs|;
    WithoutFirst(ks);
    Inside(S, child, w);
    T := Delete(h, child, S, w);
    assert n.children == cs[1..] && n.keys == ks[1..];
    RepKidsWith(T, R, cs[1..], ks[1..], kids.next);
  }

  method DeleteChildren(h: Heap, n: Node, ghost S: set<Node>, ghost v: Json) returns (ghost T: set<Node>)
    requires Good(S) && Rep(S, n, v) && v.Coll? && n.parent == null && S <= h.live
    modifies h, S
    ensures T == S - old(SubtreeKids(S, n.children, n.keys, v.kids)) && n in T && Good(T)
    ensures h.live == old(h.live) - (S - T)
    ensures n.children == []
    ensures forall x :: x in T ==> x.parent == old(x.parent) && x.key == old(x.key)
    ensures forall x :: x in T && x != n ==> x.children == old(x.children) && x.keys == old(x.keys)
    decreases v, 0
  {
    hide Inv, IndexOf, Without, RepKids, SubtreeKids, LostChild;
    NotBelowItself(S, n, v);
    T := S;
    ghost var kids := v.kids;
    ghost var D := SubtreeKids(S, n.children, n.keys, kids);
    if n.children == [] { EmptyList(S, n); } else { WalkList(S, n, 0); }
    var child := n.head;
    while child != null
      invariant n in T && T <= S && Good(T) && RepKids(T, n.children, n.keys, kids)
      invariant T - SubtreeKids(T, n.children, n.keys, kids) == S - D
      invariant child == if n.children == [] then null else n.children[0]
      invariant kids == v.kids || kids < v.kids
      invariant n.parent == null && h.live == old(h.live) - (S - T)
      invariant forall x :: x in T ==> x.parent == old(x.parent) && x.key == old(x.key)
      invariant forall x :: x in T && x != n ==> x.children == old(x.children) && x.keys == old(x.keys)
      decreases kids
    {
      var next := child.next;
      WalkNext(T, n, kids);
      T := DeleteFirst(h, n, child, T, kids, kids.value);
      kids := kids.next;
      child := next;
    }
    NothingLeft(T, n.keys, kids);
  }
}
