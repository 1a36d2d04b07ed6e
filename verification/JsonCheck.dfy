/**
 The structure checker, on any nodes at all: links may be wrong, and lists and parents may run in
 circles. The walk along a list ends, and so does the descent, because the tests that come before it
 make every node the parent of the next; all that is asked for is that the node the check starts
 from is not its own ancestor.
 */
module JsonCheck {
  import opened Utf8
  import opened JsonText
  import opened JsonLinks
  import opened JsonNode
  import opened JsonTree
  import opened JsonDelete
  import opened JsonParser

  predicate StringsOk(n: Node)
    reads n
  {
    KeyValid(n.key) && (n.tag == TagString ==> Validate(n.string_))
  }

  /** The links of `n` and of the nodes in `cs` say that these are the children of `n`, in this order. */
  ghost predicate ListIntact(n: Node, cs: seq<Node>)
    reads n, cs
  {
    && n !in cs && n.head == End(cs, 0) && n.tail == End(cs, |cs| - 1)
    && (cs != [] ==> cs[0].prev == null && cs[|cs| - 1].next == null)
    && (forall i :: 0 <= i < |cs| ==> cs[i].parent == n && cs[i].key.Key? == (n.tag == TagObject))
    && (forall i, j :: 0 <= i < |cs| && j == i + 1 && j < |cs| ==> cs[i].next == cs[j] && cs[j].prev == cs[i])
  }

  /** The node at `i`, or null outside the list. */
  ghost function End(cs: seq<Node>, i: int): Node? {
    if 0 <= i < |cs| then cs[i] else null
  }

  /** Heads and next nodes lead to nodes of the set. */
  ghost predicate Closed(S: set<Node>)
    reads S
  {
    forall x :: x in S ==> (x.IsColl() && x.head != null ==> x.head in S) && (x.next != null ==> x.next in S)
  }

  /** The first `k` nodes from `c` on, or as many as there are. */
  ghost function Chain(S: set<Node>, c: Node?, k: nat): (cs: seq<Node>)
    requires Closed(S) && (c != null ==> c in S)
    reads S
    ensures forall x :: x in cs ==> x in S
  {
    if c == null || k == 0 then [] else [c] + Chain(S, c.next, k - 1)
  }

  /** The node and everything below it is in order, and none of it is among the ancestors `P`. */
  ghost predicate Intact(S: set<Node>, P: set<Node>, n: Node)
    requires Closed(S) && n in S && n !in P
    reads S
    decreases S - P, 1
  {
    StringsOk(n) && (n.IsColl() ==> ChildrenIntact(S, P, n))
  }

  ghost predicate ChildrenIntact(S: set<Node>, P: set<Node>, n: Node)
    requires Closed(S) && n in S && n !in P && n.IsColl()
    reads S
    decreases S - P, 0
  {
    exists k: nat ::
      && ListIntact(n, Chain(S, n.head, k))
      && forall c :: c in Chain(S, n.head, k) ==> c !in P + {n} && Intact(S, P + {n}, c)
  }

  lemma IntactList(S: set<Node>, P: set<Node>, n: Node) returns (cs: seq<Node>)
    requires Closed(S) && n in S && n !in P && n.IsColl() && ChildrenIntact(S, P, n)
    ensures ListIntact(n, cs) && forall c :: c in cs ==> c in S && c !in P + {n} && Intact(S, P + {n}, c)
  {
    hide Intact;
    var k: nat :| ListIntact(n, Chain(S, n.head, k))
                  && forall c :: c in Chain(S, n.head, k) ==> c !in P + {n} && Intact(S, P + {n}, c);
    cs := Chain(S, n.head, k);
  }

  lemma ListMakesIntact(S: set<Node>, P: set<Node>, n: Node, cs: seq<Node>)
    requires Closed(S) && n in S && n !in P && n.IsColl() && ListIntact(n, cs)
    requires forall c :: c in cs ==> c in S && c !in P + {n} && Intact(S, P + {n}, c)
    ensures ChildrenIntact(S, P, n)
  {
    hide Intact, Closed;
    HeadInside(S, n);
    ChainIs(S, n, cs, 0);
    assert cs[0..] == cs;
    assert Chain(S, n.head, |cs|) == cs;
  }

  lemma HeadInside(S: set<Node>, n: Node)
    requires Closed(S) && n in S && n.IsColl()
    ensures n.head != null ==> n.head in S
  {
  }

  lemma {:induction false} ChainIs(S: set<Node>, n: Node, cs: seq<Node>, i: nat)
    requires Closed(S) && ListIntact(n, cs) && i <= |cs| && forall c :: c in cs ==> c in S
    ensures var c: Node? := if i == |cs| then null else cs[i]; Chain(S, c, |cs| - i) == cs[i..]
    decreases |cs| - i
  {
    hide Closed;
    if i < |cs| { ChainIs(S, n, cs, i + 1); }
  }

  // ----- The walk along a list -----

  /** The nodes visited so far, from the head on; everything checked of them was in order. */
  ghost predicate Visited(S: set<Node>, n: Node, vis: seq<Node>)
    reads S
    requires n in S
  {
    && n !in vis && Distinct(vis) && (forall c :: c in vis ==> c in S)
    && (vis != [] ==> n.head == vis[0] && vis[0].prev == null)
    && (forall i :: 0 <= i < |vis| ==> vis[i].parent == n && vis[i].key.Key? == (n.tag == TagObject))
    && (forall i, j :: 0 <= i < |vis| && j == i + 1 && j < |vis| ==> vis[i].next == vis[j] && vis[j].prev == vis[i])
  }

  ghost function After(n: Node, vis: seq<Node>): Node?
    reads n, vis
  {
    if vis == [] then n.head else vis[|vis| - 1].next
  }

  /** A walk along an intact list visits its nodes in order. */
  lemma {:induction false} WalkFollows(S: set<Node>, n: Node, vis: seq<Node>, cs: seq<Node>)
    requires n in S && Visited(S, n, vis) && ListIntact(n, cs)
    ensures |vis| <= |cs| && vis == cs[..|vis|]
    ensures After(n, vis) == End(cs, |vis|)
  {
    if vis != [] {
      var k := |vis| - 1;
      var front := vis[..k];
      assert Visited(S, n, front) by {
        assert forall i :: 0 <= i < k ==> front[i] == vis[i];
      }
      WalkFollows(S, n, front, cs);
      assert After(n, front) == vis[k] by { if k > 0 { assert vis[k - 1].next == vis[k]; } }
      assert vis == front + [vis[k]];
    }
  }

  /** In an intact list the next node passes every test. */
  lemma ChildPasses(S: set<Node>, P: set<Node>, n: Node, vis: seq<Node>, child: Node)
    requires Closed(S) && n in S && n !in P && n.IsColl()
    requires Visited(S, n, vis) && child == After(n, vis) && ChildrenIntact(S, P, n)
    ensures child in S && child != n && child.next != child && child.next != n.head && child.parent == n
    ensures child.next != null ==> child.next.prev == child
    ensures child.key.Key? == (n.tag == TagObject) && child !in P + {n} && Intact(S, P + {n}, child)
    ensures vis == [] ==> child.prev == null
  {
    hide Intact, Closed, ChildrenIntact;
    var cs := IntactList(S, P, n);
    WalkFollows(S, n, vis, cs);
    hide Visited;
    var k := |vis|;
    assert cs[k] == child;
    ListDistinct(n, cs);
    if k + 1 < |cs| { assert cs[k + 1].prev == child; }
  }

  lemma ListDistinct(n: Node, cs: seq<Node>)
    requires ListIntact(n, cs)
    ensures Distinct(cs)
  {
    forall i, j | 0 <= i < j < |cs| ensures cs[i] != cs[j] { BackFrom(n, cs, i, j); }
  }

  lemma {:induction false} BackFrom(n: Node, cs: seq<Node>, i: nat, j: nat)
    requires ListIntact(n, cs) && i < j < |cs|
    ensures cs[i] != cs[j]
  {
    assert cs[j].prev == cs[j - 1];
    if i > 0 {
      BackFrom(n, cs, i - 1, j - 1);
      assert cs[i].prev == cs[i - 1];
    }
  }

  /** Behind a node that passes its tests the walk has not been yet. */
  lemma NotVisited(S: set<Node>, n: Node, vis: seq<Node>)
    requires n in S && Visited(S, n, vis) && vis != []
    requires var last := vis[|vis| - 1]; last.next != null && last.next != n.head && last.next.prev == last
    ensures vis[|vis| - 1].next !in vis
  {
    var m := |vis| - 1;
    forall k | 0 <= k < |vis| ensures vis[k] != vis[m].next {
      if k > 0 {
        assert vis[k].prev == vis[k - 1];
        assert vis[k - 1] != vis[m];
      }
    }
  }

  // ----- The way down -----

  function Elems(s: seq<Node>): set<Node> { set x | x in s }

  /** The `k`-th ancestor, as far as the parent links stay in the set. */
  ghost function Ancestor(S: set<Node>, n: Node, k: nat): Node?
    reads S
  {
    if k == 0 then n
    else
      var a := Ancestor(S, n, k - 1);
      if a == null || a !in S then null else a.parent
  }

  ghost predicate OwnAncestor(S: set<Node>, n: Node)
    reads S
  {
    exists k: nat :: k > 0 && Ancestor(S, n, k) == n
  }

  /** Each node is the parent of the next, and the last one of `n`. */
  ghost predicate Descends(up: seq<Node>, n: Node)
    reads up, n
  {
    forall i :: 0 <= i < |up| ==> (up + [n])[i + 1].parent == up[i]
  }

  /** The nodes from the one the check started at down to `n`, each the parent of the next. */
  ghost predicate Path(S: set<Node>, up: seq<Node>, n: Node)
    reads S
  {
    && n in S && n !in up && Distinct(up) && (forall x :: x in up ==> x in S)
    && Descends(up, n)
    && !OwnAncestor(S, (up + [n])[0])
  }

  lemma {:induction false} AncestorShift(S: set<Node>, n: Node, k: nat)
    requires n in S && n.parent != null
    ensures Ancestor(S, n, k + 1) == Ancestor(S, n.parent, k)
  {
    if k > 0 { AncestorShift(S, n, k - 1); }
  }

  /** The start of the path is an ancestor of its end. */
  lemma {:induction false} StartIsAncestor(S: set<Node>, up: seq<Node>, n: Node)
    requires n in S && (forall x :: x in up ==> x in S)
    requires Descends(up, n)
    ensures Ancestor(S, n, |up|) == (up + [n])[0]
    decreases |up|
  {
    if up != [] {
      var k := |up| - 1;
      var front := up[..k];
      forall i | 0 <= i < k ensures (front + [up[k]])[i + 1].parent == front[i] {
        assert (up + [n])[i + 1].parent == up[i];
      }
      assert (up + [n])[k + 1].parent == up[k];
      StartIsAncestor(S, front, up[k]);
      AncestorShift(S, n, k);
      assert front + [up[k]] == up;
    } else {
      assert up + [n] == [n];
    }
  }

  /** If the start of the path has its end as parent, it is its own ancestor. */
  lemma CircleIsOwnAncestor(S: set<Node>, up: seq<Node>, n: Node, c: Node)
    requires up != [] && up[0] == c && n in S && c in S && c.parent == n && forall x :: x in up ==> x in S
    requires Descends(up, n)
    ensures OwnAncestor(S, c)
  {
    StartIsAncestor(S, up, n);
    AncestorShift(S, c, |up|);
    assert Ancestor(S, c, |up| + 1) == c;
  }

  /** A node that names `n` as its parent is not above `n`, so the path goes on to it. */
  lemma PathDown(S: set<Node>, up: seq<Node>, n: Node, c: Node)
    requires Path(S, up, n) && c in S && c != n && c.parent == n
    ensures Path(S, up + [n], c) && Elems(up + [n]) == Elems(up) + {n}
  {
    var down := up + [n];
    forall i | 0 <= i < |up| ensures up[i] != c {
      if i > 0 {
        assert (up + [n])[i - 1 + 1].parent == up[i - 1];
      } else if up[0] == c {
        CircleIsOwnAncestor(S, up, n, c);
        assert false;
      }
    }
    assert (down + [c])[0] == (up + [n])[0];
    forall i | 0 <= i < |down| ensures (down + [c])[i + 1].parent == down[i] {
      if i < |up| { assert (up + [n])[i + 1].parent == up[i]; }
    }
  }

  // ----- json_check -----

  /** It ends, and reports exactly the nodes that are not in order. `up` is the way from the start. */
  method Check(n: Node, ghost S: set<Node>, ghost up: seq<Node>) returns (ok: bool)
    requires Closed(S) && Path(S, up, n)
    ensures ok == Intact(S, Elems(up), n)
    decreases S - Elems(up), 1
  {
    hide ChildrenIntact, Closed;
    if n.key.Key? {
      ok := ValidateString(n.key.text);
      if !ok { return; }
    }
    ok := true;
    if n.tag == TagString {
      ok := ValidateString(n.string_);
    } else if n.IsColl() {
      ok := CheckChildren(n, S, up);
    }
  }

  /** Between two rounds: `vis` has been visited and is in order, `D` are its nodes, `child` is next. */
  ghost predicate Walking(S: set<Node>, P: set<Node>, n: Node, vis: seq<Node>, D: set<Node>, child: Node?, last: Node?)
    requires Closed(S) && n in S
    reads S
  {
    && Visited(S, n, vis) && child == After(n, vis) && last == End(vis, |vis| - 1)
    && D <= S && (forall c :: c in D ==> c in vis) && (forall c :: c in vis ==> c in D)
    && (forall c :: c in vis ==> c !in P + {n} && Intact(S, P + {n}, c))
    && (child != null ==> child in S && child !in vis && child.prev == last)
  }

  method CheckChildren(n: Node, ghost S: set<Node>, ghost up: seq<Node>) returns (ok: bool)
    requires Closed(S) && Path(S, up, n) && n.IsColl()
    ensures ok == ChildrenIntact(S, Elems(up), n)
    decreases S - Elems(up), 0
  {
    hide Intact, Closed, ChildrenIntact, Walking;
    ghost var P := Elems(up);
    if n.head == null || n.tail == null {
      NoHead(S, P, n);
      return n.head == null && n.tail == null;
    }
    ghost var vis: seq<Node>, D: set<Node> := [], {};
    WalkStarts(S, P, n);
    if n.head.prev != null { return false; }
    var child: Node?, last: Node? := n.head, null;
    while child != null
      invariant Walking(S, P, n, vis, D, child, last) && (child == null ==> vis != [])
      decreases S - D
    {
      var c: Node := child;
      NextPasses(S, P, n, vis, D, c, last);
      if c == n || c.next == c || c.next == n.head { return false; }
      if c.parent != n { return false; }
      if c.next != null && c.next.prev != c { return false; }
      if n.tag == TagArray && c.key.Key? { return false; }
      if n.tag == TagObject && c.key.NoKey? { return false; }
      PathDown(S, up, n, c);
      ok := Check(c, S, up + [n]);
      if !ok { return; }
      WalkStep(S, P, n, vis, D, c, last);
      vis, D := vis + [c], D + {c};
      last, child := c, c.next;
    }
    WalkDone(S, P, n, vis, D, last);
    ok := last == n.tail;
  }

  lemma WalkStarts(S: set<Node>, P: set<Node>, n: Node)
    requires Closed(S) && n in S && n !in P && n.IsColl() && n.head != null
    ensures ChildrenIntact(S, P, n) ==> n.head.prev == null
    ensures n.head.prev == null ==> Walking(S, P, n, [], {}, n.head, null)
  {
    HeadInside(S, n);
    hide Intact, Closed, ChildrenIntact;
    if ChildrenIntact(S, P, n) { ChildPasses(S, P, n, [], n.head); }
  }

  lemma NextPasses(S: set<Node>, P: set<Node>, n: Node, vis: seq<Node>, D: set<Node>, c: Node, last: Node?)
    requires Closed(S) && n in S && n !in P && n.IsColl() && Walking(S, P, n, vis, D, c, last)
    ensures c in S
    ensures ChildrenIntact(S, P, n) ==>
              && c != n && c.next != c && c.next != n.head && c.parent == n && (c.next != null ==> c.next.prev == c)
              && c.key.Key? == (n.tag == TagObject) && c !in P + {n} && Intact(S, P + {n}, c)
  {
    hide Intact, Closed, ChildrenIntact;
    if ChildrenIntact(S, P, n) { ChildPasses(S, P, n, vis, c); }
  }

  lemma WalkStep(S: set<Node>, P: set<Node>, n: Node, vis: seq<Node>, D: set<Node>, c: Node, last: Node?)
    requires Closed(S) && n in S && n !in P && n.IsColl() && Walking(S, P, n, vis, D, c, last)
    requires c in S && c != n && c.next != n.head && c.parent == n && (c.next != null ==> c.next.prev == c)
    requires c.key.Key? == (n.tag == TagObject) && c !in P + {n} && Intact(S, P + {n}, c)
    ensures Walking(S, P, n, vis + [c], D + {c}, c.next, c) && c !in D
  {
    hide Intact, Visited;
    VisitOne(S, n, vis, c);
    if c.next != null { NotVisited(S, n, vis + [c]); }
  }

  lemma WalkDone(S: set<Node>, P: set<Node>, n: Node, vis: seq<Node>, D: set<Node>, last: Node?)
    requires Closed(S) && n in S && n !in P && n.IsColl() && vis != [] && Walking(S, P, n, vis, D, null, last)
    ensures ChildrenIntact(S, P, n) <==> last == n.tail
  {
    hide Intact, Visited, Closed, ChildrenIntact;
    WalkEnds(S, P, n, vis);
  }

  lemma NoHead(S: set<Node>, P: set<Node>, n: Node)
    requires Closed(S) && n in S && n !in P && n.IsColl() && (n.head == null || n.tail == null)
    ensures ChildrenIntact(S, P, n) <==> n.head == null && n.tail == null
  {
    hide Intact, Closed, ChildrenIntact;
    if ChildrenIntact(S, P, n) { var cs := IntactList(S, P, n); }
    if n.head == null && n.tail == null { ListMakesIntact(S, P, n, []); }
  }

  lemma VisitOne(S: set<Node>, n: Node, vis: seq<Node>, child: Node)
    requires n in S && child in S && Visited(S, n, vis) && child == After(n, vis) && child !in vis && child != n
    requires child.parent == n && child.key.Key? == (n.tag == TagObject)
    requires child.prev == if vis == [] then null else vis[|vis| - 1]
    ensures Visited(S, n, vis + [child])
  {
  }

  /** At the end of the walk the visited nodes are the list, if the tail is the last of them. */
  lemma WalkEnds(S: set<Node>, P: set<Node>, n: Node, vis: seq<Node>)
    requires Closed(S) && n in S && n !in P && n.IsColl() && Visited(S, n, vis) && vis != [] && After(n, vis) == null
    requires forall c :: c in vis ==> c !in P + {n} && Intact(S, P + {n}, c)
    ensures ChildrenIntact(S, P, n) <==> vis[|vis| - 1] == n.tail
  {
    hide Intact, Closed, ChildrenIntact;
    if ChildrenIntact(S, P, n) {
      var cs := IntactList(S, P, n);
      WalkFollows(S, n, vis, cs);
      assert End(cs, |vis|) == null;
      assert vis == cs;
      assert n.tail == End(cs, |cs| - 1);
    }
    if vis[|vis| - 1] == n.tail {
      assert ListIntact(n, vis);
      ListMakesIntact(S, P, n, vis);
    }
  }

  // ----- Trees whose links are in order -----

  lemma ChildrenAreIntact(S: set<Node>, n: Node)
    requires Good(S) && n in S && n.IsColl()
    ensures ListIntact(n, n.children) && forall c :: c in n.children ==> c in S
  {
    hide Inv;
    var cs := n.children;
    if |cs| == 0 { EmptyList(S, n); } else { WalkList(S, n, 0); WalkList(S, n, |cs| - 1); }
    forall i | 0 <= i < |cs|
      ensures cs[i] in S && cs[i] != n && cs[i].parent == n && cs[i].key.Key? == (n.tag == TagObject)
      ensures i + 1 < |cs| ==> cs[i].next == cs[i + 1] && cs[i + 1].prev == cs[i]
    {
      WalkList(S, n, i);
      if i + 1 < |cs| { WalkList(S, n, i + 1); }
    }
  }

  /** Links spell out one list only. */
  lemma ListUnique(S: set<Node>, n: Node, a: seq<Node>, b: seq<Node>)
    requires n in S && ListIntact(n, a) && ListIntact(n, b) && forall c :: c in a ==> c in S
    ensures a == b
  {
    ListDistinct(n, a);
    WalkFollows(S, n, a, b);
    assert After(n, a) == null;
  }

  /** On a tree whose links are in order the check is about its strings only. */
  lemma {:induction false} IntactIffValid(S: set<Node>, T: set<Node>, P: set<Node>, n: Node, v: Json)
    requires Good(S) && T <= S && Closed(T) && n in T && Rep(S, n, v) && P !! Subtree(S, n, v)
    ensures n !in P && (Intact(T, P, n) <==> KeyValid(n.key) && ValidStrings(v))
    decreases v
  {
    hide Inv, Closed, ChildrenIntact, ListIntact;
    if v.Coll? {
      NotBelowItself(S, n, v);
      ChildrenAreIntact(S, n);
      if ChildrenIntact(T, P, n) {
        var cs := IntactList(T, P, n);
        ListUnique(S, n, n.children, cs);
      }
      ChildrenInClosed(T, n, n.children);
      KidsIntactIffValid(S, T, P + {n}, n, 0, v.kids);
      if ValidKids(v.kids) { ListMakesIntact(T, P, n, n.children); }
    }
  }

  lemma ChildrenInClosed(T: set<Node>, n: Node, cs: seq<Node>)
    requires Closed(T) && n in T && n.IsColl() && ListIntact(n, cs)
    ensures forall c :: c in cs ==> c in T
  {
    hide Closed;
    forall i | 0 <= i < |cs| ensures cs[i] in T { ChildInClosed(T, n, cs, i); }
  }

  lemma {:induction false} ChildInClosed(T: set<Node>, n: Node, cs: seq<Node>, i: nat)
    requires Closed(T) && n in T && n.IsColl() && ListIntact(n, cs) && i < |cs|
    ensures cs[i] in T
  {
    if i > 0 {
      ChildInClosed(T, n, cs, i - 1);
      assert cs[i - 1].next == cs[i];
    }
  }

  lemma {:induction false} KidsIntactIffValid(S: set<Node>, T: set<Node>, P: set<Node>, n: Node, i: nat, kids: Kids)
    requires Good(S) && T <= S && Closed(T) && n in T && RepFrom(S, n, i, kids)
    requires forall c :: c in n.children ==> c in T
    requires P !! SubtreeKids(S, n.children[i..], n.keys[i..], kids)
    ensures forall j :: i <= j < |n.children| ==> n.children[j] !in P
    ensures ValidKids(kids) <==> forall j :: i <= j < |n.children| ==> Intact(T, P, n.children[j])
    decreases kids
  {
    hide Inv, Closed, Intact;
    RepNext(S, n, i, kids);
    if kids.Kid? {
      assert n.children[i..][1..] == n.children[i + 1..] && n.keys[i..][1..] == n.keys[i + 1..];
      WalkList(S, n, i);
      IntactIffValid(S, T, P, n.children[i], kids.value);
      KidsIntactIffValid(S, T, P, n, i + 1, kids.next);
    }
  }

  lemma GoodIsClosed(S: set<Node>)
    requires Good(S)
    ensures Closed(S)
  {
    hide Inv;
    forall x | x in S ensures (x.IsColl() && x.head != null ==> x.head in S) && (x.next != null ==> x.next in S) {
      EndsExist(Snapshot(S), x);
      if x.parent == null { RootLinks(S, x); } else { SiblingsShareParent(Snapshot(S), x); }
      assert x.Links() == Snapshot(S)[x];
    }
  }

  lemma RootIsNoAncestor(S: set<Node>, n: Node, k: nat)
    requires n in S && n.parent == null && k > 0
    ensures Ancestor(S, n, k) == null
  {
  }

  /** Every tree of its own can be checked, and passes exactly when its strings are valid. */
  lemma TreePasses(S: set<Node>, n: Node, v: Json)
    requires Good(S) && Rep(S, n, v) && Subtree(S, n, v) == S && n.parent == null
    ensures Closed(S) && Path(S, [], n) && (Intact(S, {}, n) <==> ValidStrings(v))
  {
    hide Inv, Intact, Subtree;
    Inside(S, n, v);
    RootLinks(S, n);
    GoodIsClosed(S);
    forall k: nat | k > 0 ensures Ancestor(S, n, k) != n { RootIsNoAncestor(S, n, k); }
    IntactIffValid(S, S, {}, n, v);
  }

  /** Every tree that the parser returns passes the check. */
  lemma ParsedPasses(s: Bytes, N: set<Node>, n: Node)
    requires 0 !in s && Decode(s).Valid? && Built(N, n, Decode(s).value)
    ensures Closed(N) && Path(N, [], n) && Intact(N, {}, n)
  {
    hide Inv, Intact, Subtree, Rep, ParseValue, SkipSpace;
    SkipSpaceClean(s);
    ParsedIsSound(SkipSpace(s));
    SoundIsValid(Decode(s).value);
    TreePasses(N, n, Decode(s).value);
  }

  /**
   Two lists that contain each other, each the other's parent: every test along the way passes, so
   from a node that is its own ancestor the descent need not end.
   */
  lemma RingPassesTests(a: Node, b: Node)
    requires a != b && a.IsColl() && b.IsColl() && a.head == a.tail == b && b.head == b.tail == a
    requires a.parent == b && b.parent == a
    requires a.prev == a.next == null && b.prev == b.next == null
    requires a.key.Key? == (b.tag == TagObject) && b.key.Key? == (a.tag == TagObject)
    ensures ListIntact(a, [b]) && ListIntact(b, [a]) && OwnAncestor({a, b}, a)
  {
    var S := {a, b};
    assert Ancestor(S, a, 1) == b by { assert Ancestor(S, a, 0) == a; }
    assert Ancestor(S, a, 2) == a;
  }
}
