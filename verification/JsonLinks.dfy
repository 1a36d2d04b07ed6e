/**
 The link structure of a node tree as a value: what the parent, sibling, head and tail links of
 every node are. The invariant is the structural part of `json_check`, for every node at once;
 attaching and detaching a node keep it and act on the list of children as on a sequence.
 */
module JsonLinks {
  import opened JsonText

  datatype Opt<Id> = No | Yes(id: Id)

  /** The links by which a node hangs in its parent's list. */
  datatype Up<Id> = Up(parent: Opt<Id>, prev: Opt<Id>, next: Opt<Id>, key: Key)

  /** The list of a node: the two links it stores, and the children and keys they stand for. */
  datatype List<Id> = List(coll: bool, isObject: bool, head: Opt<Id>, tail: Opt<Id>, children: seq<Id>, keys: seq<Key>)

  datatype Links<Id> = Links(up: Up<Id>, list: List<Id>)

  type Nodes<!Id> = map<Id, Links<Id>>

  function First<Id>(s: seq<Id>): Opt<Id> { if s == [] then No else Yes(s[0]) }

  function Last<Id>(s: seq<Id>): Opt<Id> { if s == [] then No else Yes(s[|s| - 1]) }

  function Root<Id>(): Up<Id> { Up(No, No, No, NoKey) }

  /** How child `i` of a list hangs in node `n`. */
  function Hang<Id>(n: Id, list: List<Id>, i: nat): Up<Id>
    requires i < |list.children| == |list.keys|
  {
    Up(Yes(n),
       if i == 0 then No else Yes(list.children[i - 1]),
       if i == |list.children| - 1 then No else Yes(list.children[i + 1]),
       list.keys[i])
  }

  predicate Distinct<Id(==)>(s: seq<Id>) { forall i, j :: 0 <= i < j < |s| ==> s[i] != s[j] }

  /** The fields of a list node agree with its children. */
  predicate HeadOk<Id(==)>(n: Id, list: List<Id>) {
    && |list.keys| == |list.children| && (list.children != [] ==> list.coll)
    && list.head == First(list.children) && list.tail == Last(list.children)
    && Distinct(list.children) && n !in list.children
    && forall i :: 0 <= i < |list.keys| ==> list.keys[i].Key? == list.isObject
  }

  /** Head, tail and sibling links spell out the children of `n`. */
  predicate ListOk<Id(==)>(m: Nodes<Id>, n: Id)
    requires n in m
  {
    var list := m[n].list;
    && HeadOk(n, list)
    && forall i :: 0 <= i < |list.children| ==> list.children[i] in m && m[list.children[i]].up == Hang(n, list, i)
  }

  /** A node is among the children of its parent; without a parent it has no siblings and no key. */
  predicate UpOk<Id(==)>(m: Nodes<Id>, n: Id)
    requires n in m
  {
    match m[n].up.parent
    case Yes(p) => p in m && n in m[p].list.children
    case No => m[n].up == Root()
  }

  predicate Inv<Id(==)>(m: Nodes<Id>) {
    forall n :: n in m ==> ListOk(m, n) && UpOk(m, n)
  }

  lemma ChildIsBelow<Id>(m: Nodes<Id>, n: Id, c: Id)
    requires n in m && ListOk(m, n) && c in m[n].list.children
    ensures c in m && m[c].up.parent == Yes(n) && c != n
  {
    var i :| 0 <= i < |m[n].list.children| && m[n].list.children[i] == c;
  }

  // ----- Attaching -----

  predicate CanAttach<Id(==)>(m: Nodes<Id>, p: Id, child: Id, k: Key) {
    && p in m && child in m && p != child && m[p].list.coll && m[child].up == Root()
    && k.Key? == m[p].list.isObject
  }

  /** `append_node`, after the key has been stored. */
  function Append<Id(==)>(m: Nodes<Id>, p: Id, child: Id, k: Key): (w: Nodes<Id>)
    requires p in m && child in m && (m[p].list.tail.Yes? ==> m[p].list.tail.id in m)
    ensures w.Keys == m.Keys
  {
    var last := m[p].list.tail;
    var a := m[child := m[child].(up := Up(Yes(p), last, No, k))];
    var b := if last.Yes? then a[last.id := a[last.id].(up := a[last.id].up.(next := Yes(child)))] else a;
    b[p := b[p].(list := AppendTo(b[p].list, child, k))]
  }

  function AppendTo<Id>(list: List<Id>, child: Id, k: Key): List<Id> {
    list.(head := if list.tail.Yes? then list.head else Yes(child), tail := Yes(child),
          children := list.children + [child], keys := list.keys + [k])
  }

  lemma EndsExist<Id>(m: Nodes<Id>, p: Id)
    requires Inv(m) && p in m
    ensures var l := m[p].list;
            && (l.tail.Yes? ==> l.tail.id in m && l.tail.id != p && m[l.tail.id].up.parent == Yes(p))
            && (l.head.Yes? ==> l.head.id in m && l.head.id != p && m[l.head.id].up.parent == Yes(p))
  {
    assert ListOk(m, p);
    if m[p].list.tail.Yes? { ChildIsBelow(m, p, m[p].list.tail.id); }
    if m[p].list.head.Yes? { ChildIsBelow(m, p, m[p].list.head.id); }
  }

  lemma TailIsChild<Id>(m: Nodes<Id>, p: Id)
    requires Inv(m) && p in m
    ensures var l := m[p].list; l.tail.Yes? ==> l.tail.id in l.children
    ensures var l := m[p].list; l.head.Yes? ==> l.head.id in l.children
  {
    Both(m, p);
  }

  /** Node by node, what appending changes. */
  lemma AppendAt<Id>(m: Nodes<Id>, p: Id, child: Id, k: Key, n: Id)
    requires p in m && child in m && p != child && n in m
    requires m[p].list.tail.Yes? ==> m[p].list.tail.id in m && m[p].list.tail.id != child
    ensures var w := Append(m, p, child, k);
            && w[n].list == (if n == p then AppendTo(m[p].list, child, k) else m[n].list)
            && w[n].up == (if n == child then Up(Yes(p), m[p].list.tail, No, k)
                           else if m[p].list.tail == Yes(n) then m[n].up.(next := Yes(child)) else m[n].up)
  {
    hide AppendTo;
  }

  /** Appending keeps the invariant of every node. */
  lemma AppendKeepsInv<Id>(m: Nodes<Id>, p: Id, child: Id, k: Key)
    requires Inv(m) && CanAttach(m, p, child, k)
    ensures m[p].list.tail.Yes? ==> m[p].list.tail.id in m
    ensures Inv(Append(m, p, child, k))
  {
    hide Append, ListOk, UpOk, CanAttach;
    CanAttachIn(m, p, child, k);
    EndsExist(m, p);
    var w := Append(m, p, child, k);
    forall n | n in w ensures ListOk(w, n) && UpOk(w, n) {
      if n == p { AppendListOk(m, p, child, k); } else { AppendOthersOk(m, p, child, k, n); }
      AppendUpOk(m, p, child, k, n);
    }
  }

  lemma CanAttachIn<Id>(m: Nodes<Id>, p: Id, child: Id, k: Key)
    requires CanAttach(m, p, child, k)
    ensures p in m && child in m
  {
  }

  lemma AppendListOk<Id>(m: Nodes<Id>, p: Id, child: Id, k: Key)
    requires Inv(m) && CanAttach(m, p, child, k) && (m[p].list.tail.Yes? ==> m[p].list.tail.id in m)
    ensures ListOk(Append(m, p, child, k), p)
  {
    hide Append, UpOk, Inv, HeadOk;
    EndsExist(m, p);
    Both(m, p);
    var w, list := Append(m, p, child, k), m[p].list;
    if child in list.children { ChildIsBelow(m, p, child); }
    AppendHeadOk(p, list, child, k);
    AppendAt(m, p, child, k, p);
    AppendAt(m, p, child, k, child);
    forall i | 0 <= i < |w[p].list.children|
      ensures w[p].list.children[i] in w && w[w[p].list.children[i]].up == Hang(p, w[p].list, i)
    {
      AppendHang(p, list, child, k, i);
      if i < |list.children| { AppendAt(m, p, child, k, list.children[i]); }
    }
  }

  lemma Both<Id>(m: Nodes<Id>, n: Id)
    requires Inv(m) && n in m
    ensures ListOk(m, n) && UpOk(m, n)
  {
  }

  lemma AppendHeadOk<Id>(p: Id, list: List<Id>, child: Id, k: Key)
    requires HeadOk(p, list) && child !in list.children && child != p && list.coll && k.Key? == list.isObject
    ensures HeadOk(p, AppendTo(list, child, k))
  {
  }

  /** How the children hang after appending. */
  lemma AppendHang<Id>(p: Id, list: List<Id>, child: Id, k: Key, i: nat)
    requires HeadOk(p, list) && child !in list.children && i <= |list.children|
    ensures var l := AppendTo(list, child, k);
            && |l.children| == |l.keys| == |list.children| + 1
            && l.children[i] == (if i < |list.children| then list.children[i] else child)
            && Hang(p, l, i) == (if i == |list.children| then Up(Yes(p), list.tail, No, k)
                                 else if list.tail == Yes(list.children[i]) then Hang(p, list, i).(next := Yes(child))
                                 else Hang(p, list, i))
  {
  }

  lemma AppendOthersOk<Id>(m: Nodes<Id>, p: Id, child: Id, k: Key, n: Id)
    requires Inv(m) && CanAttach(m, p, child, k) && (m[p].list.tail.Yes? ==> m[p].list.tail.id in m) && n in m && n != p
    ensures ListOk(Append(m, p, child, k), n)
  {
    hide Append, UpOk, Inv, HeadOk, AppendTo, Hang;
    EndsExist(m, p);
    Both(m, n);
    AppendAt(m, p, child, k, n);
    var w := Append(m, p, child, k);
    forall i | 0 <= i < |m[n].list.children| ensures var c := m[n].list.children[i]; c in w && m[c].up == w[c].up {
      var c := m[n].list.children[i];
      ChildIsBelow(m, n, c);
      AppendAt(m, p, child, k, c);
    }
    SameList(m, w, n);
  }

  /** A list survives any change that leaves it, and the way its children hang, alone. */
  lemma SameList<Id>(m: Nodes<Id>, w: Nodes<Id>, n: Id)
    requires n in m && n in w && ListOk(m, n) && w[n].list == m[n].list
    requires forall i :: 0 <= i < |m[n].list.children| ==>
               var c := m[n].list.children[i]; c in w && c in m && m[c].up == w[c].up
    ensures ListOk(w, n)
  {
    hide HeadOk, Hang;
  }

  lemma AppendUpOk<Id>(m: Nodes<Id>, p: Id, child: Id, k: Key, n: Id)
    requires Inv(m) && CanAttach(m, p, child, k) && (m[p].list.tail.Yes? ==> m[p].list.tail.id in m) && n in m
    ensures UpOk(Append(m, p, child, k), n)
  {
    hide Append, ListOk, Inv;
    EndsExist(m, p);
    Both(m, n);
    AppendAt(m, p, child, k, n);
    AppendAt(m, p, child, k, p);
    if n != child && m[n].up.parent.Yes? { AppendAt(m, p, child, k, m[n].up.parent.id); }
  }

  /** `prepend_node`, after the key has been stored. */
  function Prepend<Id(==)>(m: Nodes<Id>, p: Id, child: Id, k: Key): (w: Nodes<Id>)
    requires p in m && child in m && (m[p].list.head.Yes? ==> m[p].list.head.id in m)
    ensures w.Keys == m.Keys
  {
    var first := m[p].list.head;
    var a := m[child := m[child].(up := Up(Yes(p), No, first, k))];
    var b := if first.Yes? then a[first.id := a[first.id].(up := a[first.id].up.(prev := Yes(child)))] else a;
    b[p := b[p].(list := PrependTo(b[p].list, child, k))]
  }

  function PrependTo<Id>(list: List<Id>, child: Id, k: Key): List<Id> {
    list.(tail := if list.head.Yes? then list.tail else Yes(child), head := Yes(child),
          children := [child] + list.children, keys := [k] + list.keys)
  }

  lemma PrependAt<Id>(m: Nodes<Id>, p: Id, child: Id, k: Key, n: Id)
    requires p in m && child in m && p != child && n in m
    requires m[p].list.head.Yes? ==> m[p].list.head.id in m && m[p].list.head.id != child
    ensures var w := Prepend(m, p, child, k);
            && w[n].list == (if n == p then PrependTo(m[p].list, child, k) else m[n].list)
            && w[n].up == (if n == child then Up(Yes(p), No, m[p].list.head, k)
                           else if m[p].list.head == Yes(n) then m[n].up.(prev := Yes(child)) else m[n].up)
  {
    hide PrependTo;
  }

  /** Prepending keeps the invariant of every node. */
  lemma PrependKeepsInv<Id>(m: Nodes<Id>, p: Id, child: Id, k: Key)
    requires Inv(m) && CanAttach(m, p, child, k)
    ensures m[p].list.head.Yes? ==> m[p].list.head.id in m
    ensures Inv(Prepend(m, p, child, k))
  {
    hide Prepend, ListOk, UpOk, CanAttach;
    CanAttachIn(m, p, child, k);
    EndsExist(m, p);
    var w := Prepend(m, p, child, k);
    forall n | n in w ensures ListOk(w, n) && UpOk(w, n) {
      if n == p { PrependListOk(m, p, child, k); } else { PrependOthersOk(m, p, child, k, n); }
      PrependUpOk(m, p, child, k, n);
    }
  }

  lemma PrependListOk<Id>(m: Nodes<Id>, p: Id, child: Id, k: Key)
    requires Inv(m) && CanAttach(m, p, child, k) && (m[p].list.head.Yes? ==> m[p].list.head.id in m)
    ensures ListOk(Prepend(m, p, child, k), p)
  {
    hide Prepend, UpOk, Inv, HeadOk;
    EndsExist(m, p);
    Both(m, p);
    var w, list := Prepend(m, p, child, k), m[p].list;
    if child in list.children { ChildIsBelow(m, p, child); }
    PrependHeadOk(p, list, child, k);
    PrependAt(m, p, child, k, p);
    PrependAt(m, p, child, k, child);
    forall i | 0 <= i < |w[p].list.children|
      ensures w[p].list.children[i] in w && w[w[p].list.children[i]].up == Hang(p, w[p].list, i)
    {
      PrependHang(p, list, child, k, i);
      if i > 0 { PrependAt(m, p, child, k, list.children[i - 1]); }
    }
  }

  lemma PrependHeadOk<Id>(p: Id, list: List<Id>, child: Id, k: Key)
    requires HeadOk(p, list) && child !in list.children && child != p && list.coll && k.Key? == list.isObject
    ensures HeadOk(p, PrependTo(list, child, k))
  {
  }

  /** How the children hang after prepending. */
  lemma PrependHang<Id>(p: Id, list: List<Id>, child: Id, k: Key, i: nat)
    requires HeadOk(p, list) && child !in list.children && i <= |list.children|
    ensures var l := PrependTo(list, child, k);
            && |l.children| == |l.keys| == |list.children| + 1
            && l.children[i] == (if i > 0 then list.children[i - 1] else child)
            && Hang(p, l, i) == (if i == 0 then Up(Yes(p), No, list.head, k)
                                 else if list.head == Yes(list.children[i - 1])
                                 then Hang(p, list, i - 1).(prev := Yes(child))
                                 else Hang(p, list, i - 1))
  {
  }

  lemma PrependOthersOk<Id>(m: Nodes<Id>, p: Id, child: Id, k: Key, n: Id)
    requires Inv(m) && CanAttach(m, p, child, k) && (m[p].list.head.Yes? ==> m[p].list.head.id in m) && n in m && n != p
    ensures ListOk(Prepend(m, p, child, k), n)
  {
    hide Prepend, UpOk, Inv, HeadOk, PrependTo, Hang;
    EndsExist(m, p);
    Both(m, n);
    PrependAt(m, p, child, k, n);
    var w := Prepend(m, p, child, k);
    forall i | 0 <= i < |m[n].list.children| ensures var c := m[n].list.children[i]; c in w && m[c].up == w[c].up {
      var c := m[n].list.children[i];
      ChildIsBelow(m, n, c);
      PrependAt(m, p, child, k, c);
    }
    SameList(m, w, n);
  }

  lemma PrependUpOk<Id>(m: Nodes<Id>, p: Id, child: Id, k: Key, n: Id)
    requires Inv(m) && CanAttach(m, p, child, k) && (m[p].list.head.Yes? ==> m[p].list.head.id in m) && n in m
    ensures UpOk(Prepend(m, p, child, k), n)
  {
    hide Prepend, ListOk, Inv;
    EndsExist(m, p);
    Both(m, n);
    PrependAt(m, p, child, k, n);
    PrependAt(m, p, child, k, p);
    if n != child && m[n].up.parent.Yes? { PrependAt(m, p, child, k, m[n].up.parent.id); }
  }

  // ----- Detaching -----

  /** The position of a node among its siblings. */
  function IndexOf<Id(==)>(s: seq<Id>, x: Id): (i: nat)
    requires x in s
    ensures i < |s| && s[i] == x
  {
    if s[0] == x then 0 else 1 + IndexOf(s[1..], x)
  }

  function Without<T>(s: seq<T>, i: nat): seq<T>
    requires i < |s|
  {
    s[..i] + s[i + 1..]
  }

  /** The fields of the parent's list after `json_remove_from_parent` of child `i`. */
  function RemoveFrom<Id(==)>(list: List<Id>, up: Up<Id>, i: nat): List<Id>
    requires i < |list.children| == |list.keys|
  {
    list.(head := if up.prev.Yes? then list.head else up.next,
          tail := if up.next.Yes? then list.tail else up.prev,
          children := Without(list.children, i), keys := Without(list.keys, i))
  }

  /** The node has a parent, whose list and siblings are all there. */
  predicate Attached<Id(==)>(m: Nodes<Id>, n: Id) {
    && n in m && m[n].up.parent.Yes? && m[n].up.parent.id in m
    && (m[n].up.prev.Yes? ==> m[n].up.prev.id in m) && (m[n].up.next.Yes? ==> m[n].up.next.id in m)
    && var list := m[m[n].up.parent.id].list; n in list.children && |list.children| == |list.keys|
  }

  function Remove<Id(==)>(m: Nodes<Id>, n: Id): (w: Nodes<Id>)
    requires Attached(m, n)
    ensures w.Keys == m.Keys
  {
    var up := m[n].up;
    var p := up.parent.id;
    var i := IndexOf(m[p].list.children, n);
    var a := if up.prev.Yes? then m[up.prev.id := m[up.prev.id].(up := m[up.prev.id].up.(next := up.next))] else m;
    var b := if up.next.Yes? then a[up.next.id := a[up.next.id].(up := a[up.next.id].up.(prev := up.prev))] else a;
    var c := b[p := b[p].(list := RemoveFrom(m[p].list, up, i))];
    c[n := c[n].(up := Root())]
  }

  /** Under the invariant a node with a parent hangs exactly where its parent's list says. */
  lemma AttachedOk<Id>(m: Nodes<Id>, n: Id)
    requires Inv(m) && n in m && m[n].up.parent.Yes?
    ensures Attached(m, n)
    ensures var p := m[n].up.parent.id; var list := m[p].list; var i := IndexOf(list.children, n);
            && HeadOk(p, list) && p != n && m[n].up == Hang(p, list, i)
            && (i > 0 ==> list.children[i - 1] != n) && (i + 1 < |list.children| ==> list.children[i + 1] != n)
            && (0 < i < |list.children| - 1 ==> list.children[i - 1] != list.children[i + 1])
  {
    Both(m, n);
    hide Inv;
    var p := m[n].up.parent.id;
    assert ListOk(m, p) by { Both(m, p); }
    var list := m[p].list;
    var i := IndexOf(list.children, n);
    assert list.children[i] == n;
    assert i > 0 ==> list.children[i - 1] in m;
    assert i + 1 < |list.children| ==> list.children[i + 1] in m;
  }

  /** Node by node, what detaching changes. */
  lemma RemoveAt<Id>(m: Nodes<Id>, n: Id, x: Id)
    requires Attached(m, n) && x in m
    requires var up := m[n].up; up.prev != Yes(n) && up.next != Yes(n) && (up.prev.Yes? ==> up.prev != up.next)
    ensures var w := Remove(m, n); var up := m[n].up; var p := up.parent.id;
            && w[x].list == (if x == p then RemoveFrom(m[p].list, up, IndexOf(m[p].list.children, n)) else m[x].list)
            && w[x].up == (if x == n then Root()
                           else if up.prev == Yes(x) then m[x].up.(next := up.next)
                           else if up.next == Yes(x) then m[x].up.(prev := up.prev) else m[x].up)
  {
    hide RemoveFrom, IndexOf;
  }

  lemma RemoveHeadOk<Id>(p: Id, list: List<Id>, i: nat)
    requires HeadOk(p, list) && i < |list.children|
    ensures HeadOk(p, RemoveFrom(list, Hang(p, list, i), i)) && list.children[i] !in Without(list.children, i)
  {
    var l := RemoveFrom(list, Hang(p, list, i), i);
    assert forall j :: 0 <= j < |l.children| ==> l.children[j] == list.children[if j < i then j else j + 1];
    assert forall j :: 0 <= j < |l.keys| ==> l.keys[j] == list.keys[if j < i then j else j + 1];
  }

  /** How the remaining children hang after detaching child `i`. */
  lemma RemoveHang<Id>(p: Id, list: List<Id>, i: nat, j: nat)
    requires HeadOk(p, list) && i < |list.children| && j < |list.children| - 1
    ensures var l := RemoveFrom(list, Hang(p, list, i), i); var s := if j < i then j else j + 1;
            var up := Hang(p, list, i);
            && |l.children| == |l.keys| == |list.children| - 1 && l.children[j] == list.children[s]
            && Hang(p, l, j) == (if up.prev == Yes(list.children[s]) then Hang(p, list, s).(next := up.next)
                                 else if up.next == Yes(list.children[s]) then Hang(p, list, s).(prev := up.prev)
                                 else Hang(p, list, s))
  {
    var cs, up := list.children, Hang(p, list, i);
    var s := if j < i then j else j + 1;
    assert up.prev == Yes(cs[s]) <==> s == i - 1;
    assert up.next == Yes(cs[s]) <==> s == i + 1;
  }

  /** Detaching keeps the invariant of every node, and takes the node out of one list only. */
  lemma RemoveKeepsInv<Id>(m: Nodes<Id>, n: Id)
    requires Inv(m) && n in m && m[n].up.parent.Yes?
    ensures Attached(m, n) && Inv(Remove(m, n))
  {
    hide Remove, ListOk, UpOk, Attached, IndexOf, HeadOk, Hang;
    AttachedOk(m, n);
    var w := Remove(m, n);
    forall x | x in w ensures ListOk(w, x) && UpOk(w, x) {
      RemoveListOk(m, n, x);
      RemoveUpOk(m, n, x);
    }
  }

  lemma RemoveListOk<Id>(m: Nodes<Id>, n: Id, x: Id)
    requires Inv(m) && n in m && m[n].up.parent.Yes? && x in m
    ensures Attached(m, n) && ListOk(Remove(m, n), x)
  {
    hide Remove, UpOk, Inv, HeadOk, IndexOf, RemoveFrom;
    AttachedOk(m, n);
    Both(m, x);
    var w, p := Remove(m, n), m[n].up.parent.id;
    RemoveAt(m, n, x);
    if x == p {
      RemoveParentOk(m, n);
    } else {
      forall i | 0 <= i < |m[x].list.children| ensures var c := m[x].list.children[i]; c in w && m[c].up == w[c].up {
        var c := m[x].list.children[i];
        ChildIsBelow(m, x, c);
        RemoveAt(m, n, c);
        SiblingsShareParent(m, n);
      }
      SameList(m, w, x);
    }
  }

  lemma SiblingsShareParent<Id>(m: Nodes<Id>, n: Id)
    requires Inv(m) && n in m && m[n].up.parent.Yes?
    ensures var up := m[n].up;
            && (up.prev.Yes? ==> up.prev.id in m && m[up.prev.id].up.parent == up.parent)
            && (up.next.Yes? ==> up.next.id in m && m[up.next.id].up.parent == up.parent)
  {
    hide Inv, UpOk, IndexOf;
    AttachedOk(m, n);
    var p := m[n].up.parent.id;
    Both(m, p);
    var i := IndexOf(m[p].list.children, n);
    if i > 0 { ChildIsBelow(m, p, m[p].list.children[i - 1]); }
    if i + 1 < |m[p].list.children| { ChildIsBelow(m, p, m[p].list.children[i + 1]); }
  }

  lemma RemoveParentOk<Id>(m: Nodes<Id>, n: Id)
    requires Inv(m) && n in m && m[n].up.parent.Yes?
    ensures Attached(m, n) && ListOk(Remove(m, n), m[n].up.parent.id)
  {
    hide Remove, UpOk, Inv, HeadOk, IndexOf, RemoveFrom, Hang;
    AttachedOk(m, n);
    var w, p := Remove(m, n), m[n].up.parent.id;
    var list := m[p].list;
    var i := IndexOf(list.children, n);
    Both(m, p);
    RemoveHeadOk(p, list, i);
    HangsOff(m, n);
    RemoveAt(m, n, p);
    var l := RemoveFrom(list, m[n].up, i);
    forall j | 0 <= j < |l.children| ensures l.children[j] in w && w[l.children[j]].up == Hang(p, l, j) {
      RemovedCount(p, list, m[n].up, i);
      RemoveHang(p, list, i, j);
      var s := if j < i then j else j + 1;
      OtherChild(p, list, i, s);
      RemoveAt(m, n, list.children[s]);
    }
  }

  lemma RemovedCount<Id>(p: Id, list: List<Id>, up: Up<Id>, i: nat)
    requires HeadOk(p, list) && i < |list.children|
    ensures |RemoveFrom(list, up, i).children| == |list.children| - 1
  {
  }

  lemma OtherChild<Id>(p: Id, list: List<Id>, i: nat, s: nat)
    requires HeadOk(p, list) && i < |list.children| && s < |list.children| && s != i
    ensures list.children[s] != list.children[i]
  {
  }

  /** A node is not its own sibling, and its two siblings differ. */
  lemma HangsOff<Id>(m: Nodes<Id>, n: Id)
    requires Inv(m) && n in m && m[n].up.parent.Yes?
    ensures var up := m[n].up; up.prev != Yes(n) && up.next != Yes(n) && (up.prev.Yes? ==> up.prev != up.next)
  {
    hide Inv, IndexOf, HeadOk;
    AttachedOk(m, n);
  }

  lemma RemoveUpOk<Id>(m: Nodes<Id>, n: Id, x: Id)
    requires Inv(m) && n in m && m[n].up.parent.Yes? && x in m
    ensures Attached(m, n) && UpOk(Remove(m, n), x)
  {
    hide Remove, Inv, ListOk, HeadOk, IndexOf;
    AttachedOk(m, n);
    Both(m, x);
    var w, p := Remove(m, n), m[n].up.parent.id;
    RemoveAt(m, n, x);
    SiblingsShareParent(m, n);
    if x != n && m[x].up.parent.Yes? {
      var q := m[x].up.parent.id;
      RemoveAt(m, n, q);
      if q == p { StillThere(m[p].list.children, IndexOf(m[p].list.children, n), x); }
    }
  }

  lemma StillThere<T>(s: seq<T>, i: nat, x: T)
    requires i < |s| && x in s && x != s[i]
    ensures x in Without(s, i)
  {
    var j :| 0 <= j < |s| && s[j] == x;
    assert Without(s, i)[if j < i then j else j - 1] == x;
  }

  lemma {:induction false} IndexOfLast<T>(s: seq<T>, x: T)
    requires x !in s
    ensures IndexOf(s + [x], x) == |s|
  {
    if s != [] {
      assert (s + [x])[1..] == s[1..] + [x];
      IndexOfLast(s[1..], x);
    }
  }

  lemma RemoveFromAppended<Id>(p: Id, list: List<Id>, child: Id, k: Key)
    requires HeadOk(p, list) && child !in list.children
    ensures RemoveFrom(AppendTo(list, child, k), Up(Yes(p), list.tail, No, k), |list.children|) == list
  {
    assert Without(list.children + [child], |list.children|) == list.children;
    assert Without(list.keys + [k], |list.keys|) == list.keys;
  }

  /** Removing a node that was just appended restores every link. */
  lemma RemoveInvertsAppend<Id>(m: Nodes<Id>, p: Id, child: Id, k: Key)
    requires Inv(m) && CanAttach(m, p, child, k)
    ensures m[p].list.tail.Yes? ==> m[p].list.tail.id in m
    ensures Attached(Append(m, p, child, k), child) && Remove(Append(m, p, child, k), child) == m
  {
    hide Append, Remove, ListOk, UpOk, Inv, AppendTo, RemoveFrom, HeadOk, IndexOf, Attached;
    EndsExist(m, p);
    AppendKeepsInv(m, p, child, k);
    var w := Append(m, p, child, k);
    AppendAt(m, p, child, k, child);
    AttachedOk(w, child);
    HangsOff(w, child);
    forall x | x in m ensures Remove(w, child)[x] == m[x] {
      AppendAt(m, p, child, k, x);
      AppendAt(m, p, child, k, p);
      RemoveAt(w, child, x);
      LastOk(m, p, child);
      if x == p {
        RemoveFromAppended(p, m[p].list, child, k);
        IndexOfLast(m[p].list.children, child);
        AppendedChildren(m[p].list, child, k);
      }
    }
  }

  lemma AppendedChildren<Id>(list: List<Id>, child: Id, k: Key)
    ensures AppendTo(list, child, k).children == list.children + [child]
  {
  }

  /** The last child has no next sibling, and a node without a parent is in no list. */
  lemma LastOk<Id>(m: Nodes<Id>, p: Id, child: Id)
    requires Inv(m) && p in m && child in m && m[child].up == Root()
    ensures HeadOk(p, m[p].list) && child !in m[p].list.children
    ensures m[p].list.tail.Yes? ==> m[p].list.tail.id in m && m[m[p].list.tail.id].up.next == No
  {
    Both(m, p);
    hide Inv, UpOk;
    if child in m[p].list.children { ChildIsBelow(m, p, child); }
  }

  lemma SiblingsInList<Id>(m: Nodes<Id>, n: Id)
    requires Inv(m) && n in m && m[n].up.parent.Yes?
    ensures var up := m[n].up;
            && up.parent.id in m
            && (up.prev.Yes? ==> up.prev.id in m[up.parent.id].list.children && up.prev.id != up.parent.id)
            && (up.next.Yes? ==> up.next.id in m[up.parent.id].list.children && up.next.id != up.parent.id)
  {
    hide Inv, IndexOf;
    AttachedOk(m, n);
  }

  lemma PlaceInList<Id>(m: Nodes<Id>, n: Id)
    requires Inv(m) && n in m && m[n].up.parent.Yes?
    ensures var p := m[n].up.parent.id;
            && p in m && p != n && n in m[p].list.children && |m[p].list.children| == |m[p].list.keys|
            && m[p].list.children[IndexOf(m[p].list.children, n)] == n
  {
    hide Inv, IndexOf;
    AttachedOk(m, n);
  }

  /** What the links of a list say to someone who walks along it. */
  lemma ListAt<Id>(m: Nodes<Id>, n: Id, i: nat)
    requires Inv(m) && n in m && i < |m[n].list.children|
    ensures var l := m[n].list; var c := l.children[i];
            && |l.keys| == |l.children| && l.coll && l.head == Yes(l.children[0])
            && l.tail == Yes(l.children[|l.children| - 1])
            && c in m && c != n && m[c].up == Hang(n, l, i) && l.keys[i].Key? == l.isObject
            && (i > 0 ==> c != l.children[0]) && (i + 1 < |l.children| ==> l.children[i + 1] != c)
  {
    hide Inv, UpOk, Hang, HeadOk, ListOk;
    Both(m, n);
    ChildHangs(m, n, i);
    HeadAt(n, m[n].list, i);
  }

  lemma ChildHangs<Id>(m: Nodes<Id>, n: Id, i: nat)
    requires n in m && ListOk(m, n) && i < |m[n].list.children|
    ensures var l := m[n].list;
            HeadOk(n, l) && |l.keys| == |l.children| && l.children[i] in m && m[l.children[i]].up == Hang(n, l, i)
  {
    hide Hang;
  }

  lemma HeadAt<Id>(n: Id, l: List<Id>, i: nat)
    requires HeadOk(n, l) && i < |l.children|
    ensures var c := l.children[i];
            && |l.keys| == |l.children| && l.coll && l.head == Yes(l.children[0])
            && l.tail == Yes(l.children[|l.children| - 1])
            && c != n && l.keys[i].Key? == l.isObject
            && (i > 0 ==> c != l.children[0]) && (i + 1 < |l.children| ==> l.children[i + 1] != c)
  {
  }

  /** `m` contains all of `a`. */
  predicate Extends<Id(==)>(m: Nodes<Id>, a: Nodes<Id>) { forall n :: n in a ==> n in m && m[n] == a[n] }

  lemma ExtendedOk<Id>(m: Nodes<Id>, a: Nodes<Id>, n: Id)
    requires Inv(a) && Extends(m, a) && n in a
    ensures n in m && ListOk(m, n) && UpOk(m, n)
  {
    Both(a, n);
    hide Inv;
    SameList(a, m, n);
  }

  /** Nodes that are in order stay so in the company of others that are in order. */
  lemma UnionInv<Id>(m: Nodes<Id>, a: Nodes<Id>, b: Nodes<Id>)
    requires Inv(a) && Inv(b) && Extends(m, a) && Extends(m, b) && m.Keys == a.Keys + b.Keys
    ensures Inv(m)
  {
    hide ListOk, UpOk, Extends;
    forall n | n in m ensures ListOk(m, n) && UpOk(m, n) {
      if n in a { ExtendedOk(m, a, n); } else { ExtendedOk(m, b, n); }
    }
  }
}
