/**
 The mutable JSON tree. Nodes are linked to their parent, siblings, first and last child, and the
 links are changed in place; every operation is proved against JsonLinks.
 */
module JsonNode {
  import opened Utf8
  import opened JsonText
  import opened JsonLinks

  datatype Tag = TagNull | TagBool | TagString | TagNumber | TagArray | TagObject

  class Node {
    const tag: Tag
    const bool_: bool
    const string_: Bytes
    const number_: Bytes
    var parent: Node?
    var prev: Node?
    var next: Node?
    var key: Key
    var head: Node?
    var tail: Node?
    ghost var children: seq<Node>
    ghost var keys: seq<Key>

    /** A node of its own, with no links. */
    constructor (tag: Tag, b: bool, str: Bytes, num: Bytes)
      ensures this.tag == tag && bool_ == b && string_ == str && number_ == num
      ensures Links() == JsonLinks.Links(Root(), List(IsColl(), tag == TagObject, No, No, [], []))
    {
      this.tag, bool_, string_, number_ := tag, b, str, num;
      parent, prev, next, head, tail, key := null, null, null, null, null, NoKey;
      children, keys := [], [];
    }

    predicate IsColl() { tag == TagArray || tag == TagObject }

    ghost function Links(): Links<Node>
      reads this
    {
      JsonLinks.Links(Up(Ref(parent), Ref(prev), Ref(next), key),
                      List(IsColl(), tag == TagObject, Ref(head), Ref(tail), children, keys))
    }
  }

  /** The memory that nodes come from: `live` are those that have been allocated and not freed. */
  class Heap {
    ghost var live: set<Node>

    constructor ()
      ensures live == {}
    {
      live := {};
    }

    method Make(tag: Tag, b: bool, str: Bytes, num: Bytes) returns (n: Node)
      modifies this
      ensures fresh(n) && n.tag == tag && n.bool_ == b && n.string_ == str && n.number_ == num
      ensures n.Links() == JsonLinks.Links(Root(), List(n.IsColl(), tag == TagObject, No, No, [], []))
      ensures live == old(live) + {n}
    {
      n := new Node(tag, b, str, num);
      live := live + {n};
    }

    /** A node is freed once, and nothing is known of its fields afterwards. */
    method Free(n: Node)
      requires n in live
      modifies this, n
      ensures live == old(live) - {n}
    {
      live := live - {n};
    }
  }

  ghost function Ref(n: Node?): Opt<Node> {
    if n == null then No else var m: Node := n; Yes(m)
  }

  ghost function Snapshot(S: set<Node>): Nodes<Node>
    reads S
  {
    map n | n in S :: n.Links()
  }

  /** The structural invariant of all nodes in `S`. */
  ghost predicate Good(S: set<Node>)
    reads S
  {
    Inv(Snapshot(S))
  }

  /** The pointer updates of `append_node`, after the key has been stored. */
  method LinkLast(p: Node, child: Node, k: Key)
    requires p != child && p.tail != p && p.tail != child && (p.tail != null ==> p.tail in p.children)
    modifies p`head, p`tail, p`children, p`keys, child`parent, child`prev, child`next, child`key, p.children`next
    ensures p.Links() == old(p.Links()).(list := AppendTo(old(p.Links().list), child, k))
    ensures child.Links() == old(child.Links()).(up := Up(Yes(p), Ref(old(p.tail)), No, k))
    ensures var last := old(p.tail);
            last != null ==> last.Links() == old(last.Links()).(up := old(last.Links().up).(next := Yes(child)))
    ensures forall n :: n in old(p.children) && n != child && n != old(p.tail) ==> n.next == old(n.next)
  {
    child.key := k;
    child.parent := p;
    child.prev := p.tail;
    child.next := null;
    if p.tail != null {
      p.tail.next := child;
    } else {
      p.head := child;
    }
    p.tail := child;
    p.children := p.children + [child];
    p.keys := p.keys + [k];
  }

  /** Attach a node as last child; arrays pass no key. */
  method AppendNode(p: Node, child: Node, k: Key, ghost S: set<Node>)
    requires Good(S) && CanAttach(Snapshot(S), p, child, k)
    modifies p`head, p`tail, p`children, p`keys, child`parent, child`prev, child`next, child`key, p.children`next
    ensures old(p.Links().list.tail.Yes? ==> p.Links().list.tail.id in S)
    ensures Snapshot(S) == Append(old(Snapshot(S)), p, child, k) && Good(S)
  {
    hide Inv, Append, ListOk, UpOk, AppendTo;
    ghost var m := Snapshot(S);
    AppendKeepsInv(m, p, child, k);
    EndsExist(m, p);
    TailIsChild(m, p);
    ghost var last := p.tail;
    assert last != null ==> last in S;
    LinkLast(p, child, k);
    forall n | n in S ensures n.Links() == Append(m, p, child, k)[n] {
      AppendAt(m, p, child, k, n);
      if n != p && n != child && n != last { assert n.Links() == old(n.Links()); }
    }
    assert Snapshot(S) == Append(m, p, child, k);
  }

  /** The pointer updates of `prepend_node`, after the key has been stored. */
  method LinkFirst(p: Node, child: Node, k: Key)
    requires p != child && p.head != p && p.head != child && (p.head != null ==> p.head in p.children)
    modifies p`head, p`tail, p`children, p`keys, child`parent, child`prev, child`next, child`key, p.children`prev
    ensures p.Links() == old(p.Links()).(list := PrependTo(old(p.Links().list), child, k))
    ensures child.Links() == old(child.Links()).(up := Up(Yes(p), No, Ref(old(p.head)), k))
    ensures var first := old(p.head);
            first != null ==> first.Links() == old(first.Links()).(up := old(first.Links().up).(prev := Yes(child)))
    ensures forall n :: n in old(p.children) && n != child && n != old(p.head) ==> n.prev == old(n.prev)
  {
    child.key := k;
    child.parent := p;
    child.prev := null;
    child.next := p.head;
    if p.head != null {
      p.head.prev := child;
    } else {
      p.tail := child;
    }
    p.head := child;
    p.children := [child] + p.children;
    p.keys := [k] + p.keys;
  }

  /** Attach a node as first child; arrays pass no key. */
  method PrependNode(p: Node, child: Node, k: Key, ghost S: set<Node>)
    requires Good(S) && CanAttach(Snapshot(S), p, child, k)
    modifies p`head, p`tail, p`children, p`keys, child`parent, child`prev, child`next, child`key, p.children`prev
    ensures old(p.Links().list.head.Yes? ==> p.Links().list.head.id in S)
    ensures Snapshot(S) == Prepend(old(Snapshot(S)), p, child, k) && Good(S)
  {
    hide Inv, Prepend, ListOk, UpOk, PrependTo;
    ghost var m := Snapshot(S);
    PrependKeepsInv(m, p, child, k);
    EndsExist(m, p);
    TailIsChild(m, p);
    ghost var first := p.head;
    assert first != null ==> first in S;
    LinkFirst(p, child, k);
    forall n | n in S ensures n.Links() == Prepend(m, p, child, k)[n] {
      PrependAt(m, p, child, k, n);
      if n != p && n != child && n != first { assert n.Links() == old(n.Links()); }
    }
    assert Snapshot(S) == Prepend(m, p, child, k);
  }

  /** The pointer updates of `json_remove_from_parent`. */
  method Unlink(n: Node, ghost i: nat)
    requires n.parent != null && n.parent != n && i < |n.parent.children| == |n.parent.keys|
             && n.parent.children[i] == n
    requires n.prev != n && n.next != n && (n.prev != null ==> n.prev != n.next)
    requires n.prev != null ==> n.prev in n.parent.children && n.prev != n.parent
    requires n.next != null ==> n.next in n.parent.children && n.next != n.parent
    modifies n.parent`head, n.parent`tail, n.parent`children, n.parent`keys
    modifies n`parent, n`prev, n`next, n`key, n.parent.children`prev, n.parent.children`next
    ensures var p := old(n.parent);
            && p.Links() == old(p.Links()).(list := RemoveFrom(old(p.Links().list), old(n.Links().up), i))
            && (forall c :: c in old(p.children) && c != n && c != old(n.prev) ==> c.next == old(c.next))
            && (forall c :: c in old(p.children) && c != n && c != old(n.next) ==> c.prev == old(c.prev))
    ensures n.Links() == old(n.Links()).(up := Root())
    ensures var x := old(n.prev);
            x != null ==> x.Links() == old(x.Links()).(up := old(x.Links().up).(next := Ref(old(n.next))))
    ensures var x := old(n.next);
            x != null ==> x.Links() == old(x.Links()).(up := old(x.Links().up).(prev := Ref(old(n.prev))))
  {
    hide Without;
    var p := n.parent;
    if n.prev != null {
      n.prev.next := n.next;
    } else {
      p.head := n.next;
    }
    if n.next != null {
      n.next.prev := n.prev;
    } else {
      p.tail := n.prev;
    }
    p.children := Without(p.children, i);
    p.keys := Without(p.keys, i);
    n.parent := null;
    n.prev, n.next := null, null;
    n.key := NoKey;
  }

  method Detach(n: Node, ghost S: set<Node>)
    requires Good(S) && n in S && n.parent != null
    modifies n.parent`head, n.parent`tail, n.parent`children, n.parent`keys
    modifies n`parent, n`prev, n`next, n`key, n.parent.children`prev, n.parent.children`next
    ensures old(Attached(Snapshot(S), n)) && Snapshot(S) == Remove(old(Snapshot(S)), n)
    ensures Good(S)
  {
    hide Inv, Remove, ListOk, UpOk, RemoveFrom, IndexOf, HeadOk, Hang, Attached;
    ghost var m, p := Snapshot(S), n.parent;
    RemoveKeepsInv(m, n);
    AttachedOk(m, n);
    HangsOff(m, n);
    SiblingsShareParent(m, n);
    SiblingsInList(m, n);
    PlaceInList(m, n);
    ghost var a, b := n.prev, n.next;
    Unlink(n, IndexOf(m[p].list.children, n));
    forall x | x in S ensures x.Links() == Remove(m, n)[x] {
      RemoveAt(m, n, x);
      if x != p && x != n && x != a && x != b { assert x.Links() == old(x.Links()); }
    }
    assert Snapshot(S) == Remove(m, n);
  }

  /** Detach a node from its parent, if it has one. */
  method RemoveFromParent(n: Node, ghost S: set<Node>)
    requires Good(S) && n in S
    modifies (if n.parent != null then {n.parent} else {})`head, (if n.parent != null then {n.parent} else {})`tail
    modifies (if n.parent != null then {n.parent} else {})`children, (if n.parent != null then {n.parent} else {})`keys
    modifies n`parent, n`prev, n`next, n`key
    modifies (if n.parent != null then n.parent.children else [])`prev,
             (if n.parent != null then n.parent.children else [])`next
    ensures old(n.parent) == null ==> Snapshot(S) == old(Snapshot(S))
    ensures old(n.parent) != null ==> old(Attached(Snapshot(S), n)) && Snapshot(S) == Remove(old(Snapshot(S)), n)
    ensures Good(S)
  {
    if n.parent != null {
      Detach(n, S);
    }
  }
}
