/**
 Which templates may reuse the name of a section inside it. A section by itself is rendered as its
 tree in every context exactly when the reuse is harmless; the proof lets lookups tell apart what
 is read in an element of an array from what is read around it.
 */
module MustacheReuse {
  import opened MustacheTemplate
  import opened MustacheRenderer

  // ----- Contexts and lookups that tell the walk and the tree apart -----

  const OUTER: Value := Object([])

  const INNER: Value := Null

  const ONCE: Lookup := Found(Number("1"))

  /**
   Outside, the name `a` is an array of `es`, and any other name is `outer`. In an element, the name
   `a` is `inner`, and any other name makes a section run once. Partials throw where lookups do.
   */
  function Probe(a: string, es: seq<Value>, outer: Lookup, inner: Lookup): Env {
    Env((ctx, n) => if ctx == OUTER then (if SameName(n, a) then Found(Array(es)) else outer)
                    else if SameName(n, a) then inner else ONCE,
        (n, ctx) => var val := if ctx == OUTER then outer else if SameName(n, a) then inner else ONCE;
                    if val.NotAnObject? then Threw("") else Done("1"))
  }

  predicate Plain(val: Lookup) { val == ONCE || val == NotAnObject }

  lemma {:induction false} SameNameLaws(a: string, b: string, c: string)
    ensures SameName(a, a) && (SameName(a, b) ==> SameName(b, a))
    ensures SameName(a, b) && SameName(b, c) ==> SameName(a, c)
  {
  }

  /** An inverted section is closed by its own name. */
  predicate Paired(c: Code, lo: nat, hi: nat) {
    forall t :: lo <= t < hi && t < |c.ops| && c.ops[t].tag == ElseBlock ==>
      t + 1 < |c.ops| && c.ops[t + 1].tag == CloseBlock && c.ops[t + 1].name == c.ops[t].name
  }

  lemma {:induction false} SpansPaired(c: Code, i: nat, tree: Tree, t: nat)
    requires Spans(c, i, tree) && i <= t < i + Size(tree) && t < |c.ops| && c.ops[t].tag == ElseBlock
    ensures t + 1 < |c.ops| && c.ops[t + 1].tag == CloseBlock && c.ops[t + 1].name == c.ops[t].name
    decreases tree
  {
    var j := i + ItemSize(tree.item);
    if t >= j {
      SpansPaired(c, j, tree.rest, t);
    } else if tree.item.Section? && i < t < j - 1 {
      SpansPaired(c, i + 1, tree.item.kids, t);
    }
  }

  lemma SpanPaired(c: Code, i: nat, tree: Tree, p: nat)
    requires Spans(c, i, tree) && p <= i + Size(tree)
    ensures Paired(c, i, p)
  {
    forall t | i <= t < p && t < |c.ops| && c.ops[t].tag == ElseBlock
      ensures t + 1 < |c.ops| && c.ops[t + 1].tag == CloseBlock && c.ops[t + 1].name == c.ops[t].name
    {
      SpansPaired(c, i, tree, t);
    }
  }

  // ----- What the walk does in an element -----

  /** What an action writes where every section is run once. */
  function OnceTag(c: Code, i: nat): string
    requires i < |c.ops| && i < |c.texts|
  {
    match c.ops[i].tag
    case OpenBlock => c.texts[i]
    case Ignore => ""
    case CloseBlock => ""
    case ElseBlock => ""
    case _ => "1"
  }

  function Leaves(c: Code, i: nat): nat
    requires i < |c.ops|
  {
    if c.ops[i].tag == ElseBlock then i + 1 else i
  }

  /** What is written from `i` up to the fragment before `p`, where every section is run once. */
  function OnceOut(c: Code, i: nat, p: nat): string
    requires p < |c.ops| && p < |c.texts|
    decreases p - i
  {
    if i >= p then c.texts[p] else c.texts[i] + (OnceTag(c, i) + OnceOut(c, Leaves(c, i) + 1, p))
  }

  /** The walk over the body of an element goes straight to the first tag that bears the name. */
  lemma {:induction false} GoesToFirst(c: Code, a: string, es: seq<Value>, outer: Lookup, inner: Lookup, i: nat,
                                       p: nat, stop: string)
    requires Renderable(c) && Paired(c, i, p) && i <= p < |c.ops| && stop != "" && SameName(stop, a)
    requires SameName(c.ops[p].name, a) && forall t :: i <= t < p ==> !SameName(c.ops[t].name, a)
    ensures Walk(c, Probe(a, es, outer, inner), INNER, i, stop) == At(OnceOut(c, i, p), p)
    decreases p - i
  {
    var env := Probe(a, es, outer, inner);
    SameNameLaws(c.ops[i].name, stop, a);
    SameNameLaws(c.ops[i].name, a, stop);
    SameNameLaws(stop, a, a);
    if i < p {
      WalkEnters(c, env, INNER, i, stop);
      if c.ops[i].tag == ElseBlock { assert i + 1 != p; }
      GoesToFirst(c, a, es, outer, inner, Leaves(c, i) + 1, p, stop);
      OnceInside(c, a, es, outer, inner, i);
      hide Walk, WalkTag, SameName;
    }
  }

  /** One action in an element, of another name: nothing throws, and sections are entered. */
  lemma OnceInside(c: Code, a: string, es: seq<Value>, outer: Lookup, inner: Lookup, i: nat)
    requires Renderable(c) && i < |c.ops| && !SameName(c.ops[i].name, a)
    ensures WalkTag(c, Probe(a, es, outer, inner), INNER, i) == At(OnceTag(c, i), Leaves(c, i))
  {
    SameNameLaws(c.ops[i].name, c.ops[i].name, c.ops[i].name);
    hide SameName;
  }

  // ----- What neither the walk nor the tree can see -----

  /** The walk never asks what the name `a` is in an element: it stops there. */
  lemma {:induction false} WalkBlind(c: Code, a: string, es: seq<Value>, outer: Lookup, p: Lookup, q: Lookup,
                                     ctx: Value, i: nat, stop: string)
    requires Renderable(c) && Plain(outer) && (forall e :: e in es ==> e == INNER)
    requires ctx == OUTER || (ctx == INNER && stop != "" && SameName(stop, a))
    ensures Walk(c, Probe(a, es, outer, p), ctx, i, stop) == Walk(c, Probe(a, es, outer, q), ctx, i, stop)
    decreases |c.texts| - i, 4
  {
    var v, w := Probe(a, es, outer, p), Probe(a, es, outer, q);
    if i < |c.ops| && !AtStop(c, i, stop) {
      if ctx == INNER { SameNameLaws(c.ops[i].name, a, stop); SameNameLaws(stop, a, a); }
      TagBlind(c, a, es, outer, p, q, ctx, i);
      WalkEnters(c, v, ctx, i, stop);
      WalkEnters(c, w, ctx, i, stop);
      var tag := WalkTag(c, v, ctx, i);
      if tag.At? { WalkBlind(c, a, es, outer, p, q, ctx, tag.index + 1, stop); }
      hide Walk, WalkTag, SameName, Probe;
    } else if i < |c.texts| && !AtStop(c, i, stop) {
      WalkBlind(c, a, es, outer, p, q, ctx, i + 1, stop);
    }
  }

  lemma {:induction false} TagBlind(c: Code, a: string, es: seq<Value>, outer: Lookup, p: Lookup, q: Lookup,
                                    ctx: Value, i: nat)
    requires Renderable(c) && Plain(outer) && (forall e :: e in es ==> e == INNER) && i < |c.ops|
    requires ctx == OUTER || (ctx == INNER && !SameName(c.ops[i].name, a))
    ensures WalkTag(c, Probe(a, es, outer, p), ctx, i) == WalkTag(c, Probe(a, es, outer, q), ctx, i)
    decreases |c.texts| - i, 2
  {
    var v, w := Probe(a, es, outer, p), Probe(a, es, outer, q);
    var name := c.ops[i].name;
    SameNameLaws(name, name, name);
    var val := v.lookup(ctx, name);
    assert val == w.lookup(ctx, name);
    if c.ops[i].tag == OpenBlock && !val.NotAnObject? && !IsEmpty(val) {
      if val.value.Array? {
        assert SameName(name, a) && val.value.elements == es;
        EachBlind(c, a, es, outer, p, q, val.value.elements, i, i);
      } else {
        assert AtStop(c, i, name);
        assert Walk(c, v, val.value, i, name) == Walk(c, w, val.value, i, name);
      }
    }
    hide Walk, WalkEach, SameName;
  }

  lemma {:induction false} EachBlind(c: Code, a: string, es: seq<Value>, outer: Lookup, p: Lookup, q: Lookup,
                                     todo: seq<Value>, i: nat, id: nat)
    requires Renderable(c) && Plain(outer) && (forall e :: e in es ==> e == INNER)
             && (forall e :: e in todo ==> e == INNER)
    requires i < |c.ops| && i <= id && SameName(c.ops[i].name, a)
    ensures WalkEach(c, Probe(a, es, outer, p), todo, i, id) == WalkEach(c, Probe(a, es, outer, q), todo, i, id)
    decreases |c.texts| - i, 1, |todo|
  {
    if todo != [] {
      var v := Probe(a, es, outer, p);
      WalkBlind(c, a, es, outer, p, q, INNER, i + 1, c.ops[i].name);
      var one := Walk(c, v, INNER, i + 1, c.ops[i].name);
      hide Walk, Probe;
      assert todo[0] in todo;
      assert forall e :: e in todo[1..] ==> e in todo;
      if one.At? { EachBlind(c, a, es, outer, p, q, todo[1..], i, one.index); }
    }
  }

  /** What a name is in an element. */
  lemma Inside(a: string, es: seq<Value>, outer: Lookup, inner: Lookup, n: string)
    requires Plain(inner)
    ensures var env, val := Probe(a, es, outer, inner), if SameName(n, a) then inner else ONCE;
            env.lookup(INNER, n) == val && env.partial(n, INNER) == if val == ONCE then Done("1") else Threw("")
  {
  }

  /** In an element the tree never asks for anything around it. */
  lemma {:induction false} TreeBlind(tree: Tree, a: string, es: seq<Value>, ds: seq<Value>, p: Lookup, q: Lookup,
                                     inner: Lookup)
    requires Plain(inner)
    ensures RenderTree(tree, Probe(a, es, p, inner), INNER, AsWritten)
            == RenderTree(tree, Probe(a, ds, q, inner), INNER, AsWritten)
    decreases tree
  {
    hide SameName;
    if tree.Node? {
      Inside(a, es, p, inner, tree.name);
      Inside(a, ds, q, inner, tree.name);
      hide Probe;
      TreeBlind(tree.rest, a, es, ds, p, q, inner);
      if tree.item.Section? { TreeBlind(tree.item.kids, a, es, ds, p, q, inner); }
    }
  }

  /** Only comments bear the name. */
  predicate OnlyCommentsBear(tree: Tree, name: string) {
    match tree
    case End => true
    case Node(_, n, item, rest) =>
      && (SameName(n, name) ==> item == Leaf(Ignore))
      && (item.Section? ==> OnlyCommentsBear(item.kids, name))
      && OnlyCommentsBear(rest, name)
  }

  /** In an element where the name cannot be looked up, the tree runs to its end only if it is borne by comments. */
  lemma {:induction false} RunsIffComments(tree: Tree, a: string, es: seq<Value>, outer: Lookup)
    requires WellTagged(tree)
    ensures RenderTree(tree, Probe(a, es, outer, NotAnObject), INNER, AsWritten).Done? <==> OnlyCommentsBear(tree, a)
    ensures RenderTree(tree, Probe(a, es, outer, ONCE), INNER, AsWritten).Done?
    decreases tree
  {
    hide SameName;
    if tree.Node? {
      Inside(a, es, outer, NotAnObject, tree.name);
      Inside(a, es, outer, ONCE, tree.name);
      hide Probe;
      RunsIffComments(tree.rest, a, es, outer);
      if tree.item.Section? { RunsIffComments(tree.item.kids, a, es, outer); }
    }
  }

  // ----- A section by itself -----

  /** `c` is the compilation of `tree`, with or without text behind it. */
  predicate Compiled(c: Code, tree: Tree) {
    Renderable(c) && Spans(c, 0, tree) && Size(tree) == |c.ops|
  }

  predicate SameRun(c: Code, tree: Tree, env: Env, ctx: Value)
    requires Renderable(c)
  {
    Render(c, env, ctx) == Then(RenderTree(tree, env, ctx, AsWritten), Done(Tail(c)))
  }

  /** However it is compiled and whatever the context: it is rendered as its tree. */
  ghost predicate Faithful(tree: Tree) {
    forall c, env, ctx :: Compiled(c, tree) ==> SameRun(c, tree, env, ctx)
  }

  /** What the array of the section does: the walk leaves each element at `p`, and goes on outside. */
  lemma WalkAlone(c: Code, name: string, es: seq<Value>, outer: Lookup, inner: Lookup, p: nat)
    requires Renderable(c) && 1 < |c.ops| && c.ops[0].tag == OpenBlock && c.ops[0].name == name
    requires Plain(outer) && (es == [INNER] || es == [INNER, INNER])
    requires var walk := Walk(c, Probe(name, es, outer, inner), INNER, 1, name); walk.At? && walk.index == p
    ensures var env := Probe(name, es, outer, inner);
            var out := Walk(c, env, INNER, 1, name).out;
            Walk(c, env, OUTER, 0, "")
            == Before(c.texts[0], Before(if es == [INNER] then out else out + out, Walk(c, env, OUTER, p + 1, "")))
  {
    var env := Probe(name, es, outer, inner);
    SameNameLaws(name, name, name);
    WalkEnters(c, env, OUTER, 0, "");
    hide Walk, SameName;
    var out := Walk(c, env, INNER, 1, name).out;
    assert WalkEach(c, env, [], 0, p) == At("", p);
    assert out + "" == out;
    assert WalkEach(c, env, [INNER], 0, p) == At(out, p);
    assert WalkEach(c, env, [INNER], 0, 0) == At(out, p);
    if es != [INNER] {
      assert [INNER, INNER][1..] == [INNER];
      assert WalkEach(c, env, [INNER, INNER], 0, 0) == At(out + out, p);
    }
    assert WalkTag(c, env, OUTER, 0) == WalkEach(c, env, es, 0, 0);
  }

  /** What the tree of the section does. */
  lemma TreeAlone(text: string, name: string, kids: Tree, closing: string, es: seq<Value>, outer: Lookup, inner: Lookup)
    requires Plain(outer) && (es == [INNER] || es == [INNER, INNER])
    ensures var env := Probe(name, es, outer, inner);
            var one := Then(RenderTree(kids, env, INNER, AsWritten), Done(closing));
            RenderTree(Node(text, name, Section(kids, closing), End), env, OUTER, AsWritten)
            == Then(Done(text), if es == [INNER] then one else Then(one, one))
  {
    var env := Probe(name, es, outer, inner);
    SameNameLaws(name, name, name);
    hide SameName;
    var run := RenderTree(kids, env, INNER, AsWritten);
    var one := Then(run, Done(closing));
    assert RenderEach(kids, closing, env, [], AsWritten) == Done("");
    assert closing + "" == closing;
    assert RenderEach(kids, closing, env, [INNER], AsWritten) == one;
    if es != [INNER] {
      assert [INNER, INNER][1..] == [INNER];
      ThenAssoc(run, Done(closing), one);
    }
    var item := RenderEach(kids, closing, env, es, AsWritten);
    assert RenderItem(text, name, Section(kids, closing), env, OUTER, AsWritten) == item;
    assert item.out + "" == item.out;
  }

  lemma ThenAssoc(a: Run, b: Run, d: Run)
    ensures Then(Then(a, b), d) == Then(a, Then(b, d))
  {
    if a.Done? && b.Done? { assert (a.out + b.out) + d.out == a.out + (b.out + d.out); }
  }

  // ----- Harmless reuse is necessary -----

  /** First: the body bears the name in comments only. */
  lemma CommentsOnly(c: Code, text: string, name: string, kids: Tree, closing: string)
    requires Compiled(c, Node(text, name, Section(kids, closing), End)) && WellTagged(kids)
    requires Faithful(Node(text, name, Section(kids, closing), End))
    ensures OnlyCommentsBear(kids, name)
  {
    var tree := Node(text, name, Section(kids, closing), End);
    var p, q := Probe(name, [INNER], ONCE, NotAnObject), Probe(name, [INNER], ONCE, ONCE);
    WalkBlind(c, name, [INNER], ONCE, NotAnObject, ONCE, OUTER, 0, "");
    assert SameRun(c, tree, p, OUTER) && SameRun(c, tree, q, OUTER);
    TreeAlone(text, name, kids, closing, [INNER], ONCE, NotAnObject);
    TreeAlone(text, name, kids, closing, [INNER], ONCE, ONCE);
    RunsIffComments(kids, name, [INNER], ONCE);
    hide Walk, RenderTree, Probe, Compiled, Faithful, OnlyCommentsBear;
  }

  /** The first tag that bears the name. */
  lemma {:induction false} FirstBorne(c: Code, i: nat, tree: Tree, name: string) returns (p: nat)
    requires Spans(c, i, tree) && Bears(tree, name)
    ensures i <= p < i + Size(tree) && p < |c.ops| && SameName(c.ops[p].name, name)
    ensures forall t :: i <= t < p && t < |c.ops| ==> !SameName(c.ops[t].name, name)
    decreases tree
  {
    hide SameName;
    var j := i + ItemSize(tree.item);
    if SameName(tree.name, name) {
      p := i;
    } else if tree.item.Section? && Bears(tree.item.kids, name) {
      p := FirstBorne(c, i + 1, tree.item.kids, name);
    } else {
      p := FirstBorne(c, j, tree.rest, name);
      forall t | i <= t < j && t < |c.ops| ensures !SameName(c.ops[t].name, name) { NotBorneAt(c, i, tree, name, t); }
    }
  }

  lemma NotBorneAt(c: Code, i: nat, tree: Tree, name: string, t: nat)
    requires Spans(c, i, tree) && tree.Node? && i <= t < i + ItemSize(tree.item) && t < |c.ops|
    requires !SameName(tree.name, name) && (tree.item.Section? ==> !Bears(tree.item.kids, name))
    ensures !SameName(c.ops[t].name, name)
  {
    if tree.item.Section? && i < t < i + ItemSize(tree.item) - 1 && SameName(c.ops[t].name, name) {
      BorneAt(c, i + 1, tree.item.kids, name, t);
    }
  }

  lemma {:induction false} CommentsAt(c: Code, i: nat, tree: Tree, name: string, t: nat)
    requires Spans(c, i, tree) && OnlyCommentsBear(tree, name)
    requires i <= t < i + Size(tree) && t < |c.ops| && SameName(c.ops[t].name, name)
    ensures c.ops[t].tag == Ignore
    decreases tree
  {
    var j := i + ItemSize(tree.item);
    if t >= j {
      CommentsAt(c, j, tree.rest, name, t);
    } else if tree.item.Section? && i < t < j - 1 {
      CommentsAt(c, i + 1, tree.item.kids, name, t);
    }
  }

  predicate Silent(tag: ActionType) { tag == Ignore || tag == CloseBlock }

  /** From `i` on, outside, where no other name can be looked up: only silent tags do not throw. */
  lemma {:induction false} SilentIfRuns(c: Code, a: string, es: seq<Value>, i: nat)
    requires Renderable(c) && forall t :: i <= t < |c.ops| && SameName(c.ops[t].name, a) ==> Silent(c.ops[t].tag)
    requires Walk(c, Probe(a, es, NotAnObject, ONCE), OUTER, i, "").At?
    ensures forall t :: i <= t < |c.ops| ==> Silent(c.ops[t].tag)
    decreases |c.ops| - i
  {
    var env := Probe(a, es, NotAnObject, ONCE);
    if i < |c.ops| {
      WalkEnters(c, env, OUTER, i, "");
      SameNameLaws(c.ops[i].name, a, a);
      hide SameName;
      assert Silent(c.ops[i].tag);
      assert WalkTag(c, env, OUTER, i) == At("", i);
      SilentIfRuns(c, a, es, i + 1);
    }
  }

  /** From `i` on, outside, where every other name makes a section run once, nothing throws. */
  lemma {:induction false} RunsOn(c: Code, a: string, es: seq<Value>, i: nat)
    requires Renderable(c) && forall t :: i <= t < |c.ops| && SameName(c.ops[t].name, a) ==> Silent(c.ops[t].tag)
    ensures Walk(c, Probe(a, es, ONCE, ONCE), OUTER, i, "").At?
    decreases |c.texts| - i
  {
    var env := Probe(a, es, ONCE, ONCE);
    if i < |c.ops| {
      WalkEnters(c, env, OUTER, i, "");
      OnceOutside(c, a, es, i);
      RunsOn(c, a, es, WalkTag(c, env, OUTER, i).index + 1);
      hide Walk, WalkTag, SameName;
    } else if i < |c.texts| {
      RunsOn(c, a, es, i + 1);
    }
  }

  lemma OnceOutside(c: Code, a: string, es: seq<Value>, i: nat)
    requires Renderable(c) && i < |c.ops| && (SameName(c.ops[i].name, a) ==> Silent(c.ops[i].tag))
    ensures WalkTag(c, Probe(a, es, ONCE, ONCE), OUTER, i).At?
  {
    SameNameLaws(c.ops[i].name, c.ops[i].name, c.ops[i].name);
    hide SameName;
  }

  /** A silent walk that writes no more than the text behind the last tag has nothing else to write. */
  lemma {:induction false} NothingWritten(c: Code, env: Env, ctx: Value, i: nat)
    requires Renderable(c) && i <= |c.ops| && forall t :: i <= t < |c.ops| ==> Silent(c.ops[t].tag)
    ensures var walk := Walk(c, env, ctx, i, "");
            && walk.At? && |walk.out| >= |Tail(c)|
            && (|walk.out| == |Tail(c)| ==> AllQuiet(c, i - 1, |c.ops|))
    decreases |c.ops| - i
  {
    if i < |c.ops| {
      WalkEnters(c, env, ctx, i, "");
      NothingWritten(c, env, ctx, i + 1);
      hide Walk;
      assert WalkTag(c, env, ctx, i) == At("", i);
    }
  }

  /** A section whose body bears the name in comments, the first of them at `p`. */
  predicate CommentFirst(c: Code, text: string, name: string, kids: Tree, closing: string, p: nat) {
    && Compiled(c, Node(text, name, Section(kids, closing), End))
    && OnlyCommentsBear(kids, name) && 1 <= p < 1 + Size(kids) && SameName(c.ops[p].name, name)
    && forall t :: 1 <= t < p ==> !SameName(c.ops[t].name, name)
  }

  lemma AloneShape(c: Code, text: string, name: string, kids: Tree, closing: string)
    requires Compiled(c, Node(text, name, Section(kids, closing), End))
    ensures |c.ops| == 2 + Size(kids) && Cell(c, 0, text, OpenBlock, name) && Spans(c, 1, kids)
    ensures Cell(c, 1 + Size(kids), closing, CloseBlock, name)
  {
    var item := Section(kids, closing);
    assert SpansItem(c, 0, text, name, item);
    assert Size(Node(text, name, item, End)) == ItemSize(item) + Size(End);
    assert Spans(c, 0 + 1, kids);
  }

  /** Every tag from the first one on that bears the name is a comment or a closing tag. */
  lemma NameIsSilent(c: Code, text: string, name: string, kids: Tree, closing: string, p: nat, t: nat)
    requires CommentFirst(c, text, name, kids, closing, p) && p <= t < |c.ops| && SameName(c.ops[t].name, name)
    ensures Silent(c.ops[t].tag)
  {
    AloneShape(c, text, name, kids, closing);
    if t < 1 + Size(kids) { CommentsAt(c, 1, kids, name, t); }
  }

  /** What rendering the section does in the probing contexts. */
  lemma RenderAlone(c: Code, text: string, name: string, kids: Tree, closing: string, p: nat, es: seq<Value>,
                    outer: Lookup)
    requires CommentFirst(c, text, name, kids, closing, p) && Plain(outer) && (es == [INNER] || es == [INNER, INNER])
    ensures p < |c.ops|
    ensures var env, out := Probe(name, es, outer, ONCE), OnceOut(c, 1, p);
            Walk(c, env, OUTER, 0, "")
            == Before(text, Before(if es == [INNER] then out else out + out, Walk(c, env, OUTER, p + 1, "")))
  {
    AloneShape(c, text, name, kids, closing);
    SpanPaired(c, 1, kids, p);
    SameNameLaws(name, name, name);
    GoesToFirst(c, name, es, outer, ONCE, 1, p, name);
    hide Walk, SameName, Probe;
    WalkAlone(c, name, es, outer, ONCE, p);
  }

  /** Second: behind the first such comment there are only comments and closing tags. */
  lemma OnlySilentAfter(c: Code, text: string, name: string, kids: Tree, closing: string, p: nat)
    requires CommentFirst(c, text, name, kids, closing, p) && WellTagged(kids)
    requires Faithful(Node(text, name, Section(kids, closing), End))
    ensures forall t :: p < t < |c.ops| ==> Silent(c.ops[t].tag)
  {
    var tree := Node(text, name, Section(kids, closing), End);
    var v, w := Probe(name, [INNER], NotAnObject, ONCE), Probe(name, [INNER], ONCE, ONCE);
    RenderAlone(c, text, name, kids, closing, p, [INNER], NotAnObject);
    RenderAlone(c, text, name, kids, closing, p, [INNER], ONCE);
    assert SameRun(c, tree, v, OUTER) && SameRun(c, tree, w, OUTER);
    TreeAlone(text, name, kids, closing, [INNER], NotAnObject, ONCE);
    TreeAlone(text, name, kids, closing, [INNER], ONCE, ONCE);
    TreeBlind(kids, name, [INNER], [INNER], NotAnObject, ONCE, ONCE);
    forall t | p < t < |c.ops| && SameName(c.ops[t].name, name) ensures Silent(c.ops[t].tag) {
      NameIsSilent(c, text, name, kids, closing, p, t);
    }
    RunsOn(c, name, [INNER], p + 1);
    SilentRunsAgree(c, tree, v, w, p);
    SilentIfRuns(c, name, [INNER], p + 1);
  }

  lemma SilentRunsAgree(c: Code, tree: Tree, v: Env, w: Env, p: nat)
    requires Renderable(c) && SameRun(c, tree, v, OUTER) && SameRun(c, tree, w, OUTER)
    requires RenderTree(tree, v, OUTER, AsWritten) == RenderTree(tree, w, OUTER, AsWritten)
    requires Walk(c, v, OUTER, 0, "").At? == Walk(c, v, OUTER, p + 1, "").At?
    requires Walk(c, w, OUTER, 0, "").At? == Walk(c, w, OUTER, p + 1, "").At?
    requires Walk(c, w, OUTER, p + 1, "").At?
    ensures Walk(c, v, OUTER, p + 1, "").At?
  {
    hide Walk, RenderTree;
  }

  /** A silent walk writes the same wherever it goes. */
  lemma {:induction false} SilentAlike(c: Code, v: Env, w: Env, ctx: Value, i: nat)
    requires Renderable(c) && i <= |c.ops| && forall t :: i <= t < |c.ops| ==> Silent(c.ops[t].tag)
    ensures Walk(c, v, ctx, i, "") == Walk(c, w, ctx, i, "")
    decreases |c.ops| - i
  {
    if i < |c.ops| {
      WalkEnters(c, v, ctx, i, "");
      WalkEnters(c, w, ctx, i, "");
      SilentAlike(c, v, w, ctx, i + 1);
      hide Walk;
      assert WalkTag(c, v, ctx, i) == At("", i) && WalkTag(c, w, ctx, i) == At("", i);
    }
  }

  /** Third: nor is there any text. */
  lemma NoTextAfter(c: Code, text: string, name: string, kids: Tree, closing: string, p: nat)
    requires CommentFirst(c, text, name, kids, closing, p) && WellTagged(kids)
    requires Faithful(Node(text, name, Section(kids, closing), End))
    requires forall t :: p < t < |c.ops| ==> Silent(c.ops[t].tag)
    ensures AllQuiet(c, p, |c.ops|)
  {
    var tree := Node(text, name, Section(kids, closing), End);
    var one, two := [INNER], [INNER, INNER];
    var v, w := Probe(name, one, ONCE, ONCE), Probe(name, two, ONCE, ONCE);
    RenderAlone(c, text, name, kids, closing, p, one, ONCE);
    RenderAlone(c, text, name, kids, closing, p, two, ONCE);
    NothingWritten(c, v, OUTER, p + 1);
    SilentAlike(c, v, w, OUTER, p + 1);
    assert SameRun(c, tree, v, OUTER) && SameRun(c, tree, w, OUTER);
    TreeAlone(text, name, kids, closing, one, ONCE, ONCE);
    TreeAlone(text, name, kids, closing, two, ONCE, ONCE);
    TreeBlind(kids, name, one, two, ONCE, ONCE, ONCE);
    RunsIffComments(kids, name, one, ONCE);
    var run := RenderTree(kids, v, INNER, AsWritten);
    hide Walk, RenderTree, Probe, Compiled, Faithful, CommentFirst, AllQuiet, Tail;
    Lengths(text, OnceOut(c, 1, p), Walk(c, v, OUTER, p + 1, "").out, run.out + closing, Tail(c));
  }

  /** If running a body once and twice comes out right, what is written once only is nothing. */
  lemma Lengths(text: string, prefix: string, after: string, whole: string, tail: string)
    requires text + (prefix + after) == text + whole + tail
    requires text + (prefix + prefix + after) == text + (whole + whole) + tail
    ensures |after| == |tail|
  {
    assert |text + (prefix + after)| == |text| + |prefix| + |after|;
    assert |text + (prefix + prefix + after)| == |text| + 2 * |prefix| + |after|;
  }

  // ----- Back from the arrays to the tree -----

  lemma {:induction false} QuietFromCode(c: Code, i: nat, tree: Tree)
    requires Spans(c, i, tree) && i + Size(tree) <= |c.ops| && i + Size(tree) <= |c.texts|
    requires forall t :: i <= t < i + Size(tree) ==> c.texts[t] == "" && Silent(c.ops[t].tag)
    ensures Quiet(tree)
    decreases tree
  {
    if tree.Node? {
      assert Silent(c.ops[i].tag);
      QuietFromCode(c, i + ItemSize(tree.item), tree.rest);
    }
  }

  lemma {:induction false} QuietAfterFromCode(c: Code, i: nat, tree: Tree, name: string, p: nat)
    requires Spans(c, i, tree) && i + Size(tree) <= |c.ops| && i + Size(tree) <= |c.texts|
    requires i <= p < i + Size(tree) && SameName(c.ops[p].name, name) && c.ops[p].tag == Ignore
    requires forall t :: i <= t < p ==> !SameName(c.ops[t].name, name)
    requires forall t :: p < t < i + Size(tree) ==> c.texts[t] == "" && Silent(c.ops[t].tag)
    ensures QuietAfter(tree, name)
    decreases tree
  {
    hide SameName;
    var j := i + ItemSize(tree.item);
    if p >= j {
      if tree.item.Section? && Bears(tree.item.kids, name) {
        var t := FirstBorne(c, i + 1, tree.item.kids, name);
        assert false;
      }
      QuietAfterFromCode(c, j, tree.rest, name, p);
    } else {
      QuietFromCode(c, j, tree.rest);
      if p > i {
        assert tree.item.Section?;
        assert c.ops[j - 1].name == tree.name && c.ops[i].name == tree.name;
        QuietAfterFromCode(c, i + 1, tree.item.kids, name, p);
        BorneAt(c, i + 1, tree.item.kids, name, p);
        assert c.texts[j - 1] == "";
      }
    }
  }

  /** A section that is rendered as its tree in every context, by itself, reuses its name harmlessly. */
  lemma FaithfulIsHarmless(c: Code, text: string, name: string, kids: Tree, closing: string)
    requires Compiled(c, Node(text, name, Section(kids, closing), End)) && WellTagged(kids)
    requires Faithful(Node(text, name, Section(kids, closing), End))
    ensures Harmless(kids, closing, name)
  {
    AloneShape(c, text, name, kids, closing);
    CommentsOnly(c, text, name, kids, closing);
    if Bears(kids, name) {
      var p := FirstBorne(c, 1, kids, name);
      CommentsAt(c, 1, kids, name, p);
      OnlySilentAfter(c, text, name, kids, closing, p);
      NoTextAfter(c, text, name, kids, closing, p);
      assert c.texts[|c.ops| - 1] == "";
      QuietAfterFromCode(c, 1, kids, name, p);
    } else {
      NotBorneIsQuiet(kids, name);
    }
  }

  // ----- Theorem -----

  lemma {:induction false} SpansWellTagged(c: Code, i: nat, tree: Tree)
    requires Spans(c, i, tree)
    ensures WellTagged(tree)
    decreases tree
  {
    if tree.Node? {
      SpansWellTagged(c, i + ItemSize(tree.item), tree.rest);
      if tree.item.Section? { SpansWellTagged(c, i + 1, tree.item.kids); }
    }
  }

  function Slice(c: Code, lo: nat, hi: nat): Code
    requires lo <= hi <= |c.ops| && hi <= |c.texts|
  {
    Code(c.texts[lo..hi], c.ops[lo..hi])
  }

  lemma {:induction false} SliceSpans(c: Code, i: nat, tree: Tree, lo: nat, hi: nat)
    requires Spans(c, i, tree) && lo <= i && i + Size(tree) <= hi <= |c.ops| && hi <= |c.texts|
    ensures Spans(Slice(c, lo, hi), i - lo, tree)
    decreases tree
  {
    if tree.Node? {
      SliceSpans(c, i + ItemSize(tree.item), tree.rest, lo, hi);
      if tree.item.Section? { SliceSpans(c, i + 1, tree.item.kids, lo, hi); }
    }
  }

  /** The cells of a section, taken out of a template, are the section by itself. */
  lemma SliceCompiled(c: Code, i: nat, text: string, name: string, item: Item)
    requires Renderable(c) && SpansItem(c, i, text, name, item) && i + ItemSize(item) <= |c.ops|
    ensures Compiled(Slice(c, i, i + ItemSize(item)), Node(text, name, item, End))
  {
    var tree, hi := Node(text, name, item, End), i + ItemSize(item);
    var s := Slice(c, i, hi);
    assert Spans(c, i, tree);
    SliceSpans(c, i, tree, i, hi);
    forall t: nat | t < |s.ops| ensures ElseIsClosed(s, t) && s.ops[t].name != "" {
      assert s.ops[t] == c.ops[i + t];
      if s.ops[t].tag == ElseBlock { SpansPaired(s, 0, tree, t); }
    }
  }

  /** Every section of the tree, taken by itself, is rendered as its tree. */
  ghost predicate SectionsFaithful(tree: Tree) {
    tree.Node? ==>
      && (tree.item.Section?
          ==> Faithful(Node(tree.text, tree.name, tree.item, End)) && SectionsFaithful(tree.item.kids))
      && SectionsFaithful(tree.rest)
  }

  lemma HarmlessIsFaithful(text: string, name: string, item: Item)
    requires item.Section? && Harmless(item.kids, item.closing, name) && ReuseHarmless(item.kids)
    ensures Faithful(Node(text, name, item, End))
  {
    var tree := Node(text, name, item, End);
    forall c, env, ctx | Compiled(c, tree) ensures SameRun(c, tree, env, ctx) { RenderSpanned(c, env, ctx, tree); }
  }

  lemma {:induction false} FaithfulIffHarmless(c: Code, i: nat, tree: Tree)
    requires Renderable(c) && Spans(c, i, tree) && i + Size(tree) <= |c.ops|
    ensures SectionsFaithful(tree) <==> ReuseHarmless(tree)
    decreases tree
  {
    hide Faithful, Harmless;
    if tree.Node? {
      FaithfulIffHarmless(c, i + ItemSize(tree.item), tree.rest);
      if tree.item.Section? {
        var kids := tree.item.kids;
        FaithfulIffHarmless(c, i + 1, kids);
        SpansWellTagged(c, i + 1, kids);
        SliceCompiled(c, i, tree.text, tree.name, tree.item);
        if SectionsFaithful(tree) {
          FaithfulIsHarmless(Slice(c, i, i + ItemSize(tree.item)), tree.text, tree.name, kids, tree.item.closing);
        }
        if ReuseHarmless(tree) { HarmlessIsFaithful(tree.text, tree.name, tree.item); }
      }
    }
  }

  /**
   Theorem: the sections of a template are each rendered as their trees, in every context, under every
   lookup and whatever partials do, exactly when all reuse of names is harmless.
   */
  lemma SectionsFaithfulIffHarmless(c: Code)
    requires Renderable(c) && Balanced(c)
    ensures SectionsFaithful(TreeOf(c)) <==> ReuseHarmless(TreeOf(c))
  {
    FaithfulIffHarmless(c, 0, TreeOf(c));
  }

  // ----- Where the walk of a body stops -----

  /** A section inside a span, with its own closing tag inside. */
  lemma {:induction false} SectionAt(c: Code, i: nat, tree: Tree, t: nat)
    returns (text: string, kids: Tree, closing: string)
    requires Spans(c, i, tree) && i <= t < i + Size(tree) && t < |c.ops| && c.ops[t].tag == OpenBlock
    ensures SpansItem(c, t, text, c.ops[t].name, Section(kids, closing)) && t + 2 + Size(kids) <= i + Size(tree)
    decreases tree
  {
    var j := i + ItemSize(tree.item);
    if t >= j {
      text, kids, closing := SectionAt(c, j, tree.rest, t);
    } else if t == i {
      text, kids, closing := tree.text, tree.item.kids, tree.item.closing;
    } else {
      text, kids, closing := SectionAt(c, i + 1, tree.item.kids, t);
    }
  }

  lemma {:induction false} FindCloseBy(c: Code, name: string, i: nat, k: nat)
    requires i <= k < |c.ops| && c.ops[k].name == name && c.ops[k].tag == CloseBlock
    ensures FindClose(c, name, i) <= k
    decreases k - i
  {
    SameNameLaws(name, name, name);
    if i < k { FindCloseBy(c, name, i + 1, k); }
  }

  /** The walk does not get past a tag that bears the stop name, from anywhere in the tree before it. */
  lemma {:induction false} StaysInside(c: Code, env: Env, ctx: Value, lo: nat, tree: Tree, i: nat, stop: string)
    requires Renderable(c) && Spans(c, lo, tree) && lo <= i <= lo + Size(tree) < |c.ops|
    requires stop != "" && SameName(c.ops[lo + Size(tree)].name, stop)
    ensures var walk := Walk(c, env, ctx, i, stop);
            walk.At? ==> walk.index <= lo + Size(tree) && AtStop(c, walk.index, stop)
    decreases |c.texts| - i, 4
  {
    hide SameName;
    if i < lo + Size(tree) && !AtStop(c, i, stop) {
      WalkEnters(c, env, ctx, i, stop);
      var tag := WalkTag(c, env, ctx, i);
      LeavesInside(c, env, ctx, lo, tree, i);
      if tag.At? { StaysInside(c, env, ctx, lo, tree, tag.index + 1, stop); }
      hide Walk, WalkTag;
    }
  }

  lemma {:induction false} LeavesInside(c: Code, env: Env, ctx: Value, lo: nat, tree: Tree, i: nat)
    requires Renderable(c) && Spans(c, lo, tree) && lo <= i < lo + Size(tree) < |c.ops|
    ensures var tag := WalkTag(c, env, ctx, i); tag.At? ==> tag.index < lo + Size(tree)
    decreases |c.texts| - i, 2
  {
    var name := c.ops[i].name;
    var val := env.lookup(ctx, name);
    SameNameLaws(name, name, name);
    if c.ops[i].tag == OpenBlock {
      var text, kids, closing := SectionAt(c, lo, tree, i);
      if val.Found? && !IsEmpty(val) {
        if val.value.Array? {
          EachInside(c, env, val.value.elements, i, i, kids);
        } else {
          assert AtStop(c, i, name);
        }
      } else {
        FindCloseBy(c, name, i, i + 1 + Size(kids));
      }
    } else if c.ops[i].tag == ElseBlock {
      ElseInside(c, lo, tree, i);
    }
    hide SameName, WalkEach;
  }

  lemma {:induction false} ElseInside(c: Code, i: nat, tree: Tree, t: nat)
    requires Spans(c, i, tree) && i <= t < i + Size(tree) && t < |c.ops| && c.ops[t].tag == ElseBlock
    ensures t + 1 < i + Size(tree)
    decreases tree
  {
    var j := i + ItemSize(tree.item);
    if t >= j {
      ElseInside(c, j, tree.rest, t);
    } else if tree.item.Section? {
      ElseInside(c, i + 1, tree.item.kids, t);
    }
  }

  lemma {:induction false} EachInside(c: Code, env: Env, es: seq<Value>, i: nat, id: nat, kids: Tree)
    requires Renderable(c) && i <= id <= i + 1 + Size(kids) < |c.ops|
    requires Spans(c, i + 1, kids) && c.ops[i + 1 + Size(kids)].name == c.ops[i].name
    ensures var each := WalkEach(c, env, es, i, id); each.At? ==> each.index <= i + 1 + Size(kids)
    decreases |c.texts| - i, 1, |es|
  {
    if es != [] {
      var name := c.ops[i].name;
      SameNameLaws(name, name, name);
      StaysInside(c, env, es[0], i + 1, kids, i + 1, name);
      var one := Walk(c, env, es[0], i + 1, name);
      hide Walk, SameName;
      if one.At? { EachInside(c, env, es[1..], i, one.index, kids); }
    }
  }

  /** Unless it throws, the walk of the body of the section at `i` ends at the section's closing tag. */
  ghost predicate EndsAtClose(c: Code, env: Env, ctx: Value, i: nat, name: string, kids: Tree)
    requires Renderable(c)
  {
    var walk := Walk(c, env, ctx, i + 1, name);
    walk.At? ==> walk.index == i + 1 + Size(kids)
  }

  /** The walk of a section's body ends at the section's own closing tag, in every context, exactly
      when the body does not bear the section's name. */
  lemma StopsAtOwnClose(c: Code, i: nat, text: string, name: string, kids: Tree, closing: string)
    requires Renderable(c) && SpansItem(c, i, text, name, Section(kids, closing))
    ensures (forall env: Env, ctx: Value :: EndsAtClose(c, env, ctx, i, name, kids)) <==> !Bears(kids, name)
  {
    SameNameLaws(name, name, name);
    var k := i + 1 + Size(kids);
    if Bears(kids, name) {
      var p := FirstBorne(c, i + 1, kids, name);
      SpanPaired(c, i + 1, kids, p);
      GoesToFirst(c, name, [], ONCE, ONCE, i + 1, p, name);
      assert !EndsAtClose(c, Probe(name, [], ONCE, ONCE), INNER, i, name, kids);
    } else {
      forall env: Env, ctx: Value ensures EndsAtClose(c, env, ctx, i, name, kids) {
        StaysInside(c, env, ctx, i + 1, kids, i + 1, name);
        var walk := Walk(c, env, ctx, i + 1, name);
        if walk.At? && walk.index < k { BorneAt(c, i + 1, kids, name, walk.index); }
      }
    }
  }

  // ----- Whole templates may hide a harmful section -----

  /** The compilation of `{{a}}{{#a}}{{a}}x{{/a}}`. */
  const GUARDED: Code :=
    Code(["", "", "", "x"], [Op(Tag, "a", 0), Op(OpenBlock, "a", 0), Op(Tag, "a", 0), Op(CloseBlock, "a", 1)])

  const GUARDED_TREE: Tree :=
    Node("", "a", Leaf(Tag), Node("", "a", Section(Node("", "a", Leaf(Tag), End), "x"), End))

  /** What that template does, walked or run: the name is looked up in one context only. */
  function GuardedRun(env: Env, ctx: Value): Run {
    var tag := RenderLeaf(Tag, "a", env, ctx);
    if tag.Threw? || IsEmpty(env.lookup(ctx, "a")) then tag else Done(tag.out + (tag.out + "x"))
  }

  lemma GuardedShape()
    ensures Compiled(GUARDED, GUARDED_TREE) && Renderable(GUARDED) && Tail(GUARDED) == ""
            && !ReuseHarmless(GUARDED_TREE)
  {
    assert Spans(GUARDED, 0, GUARDED_TREE);
  }

  lemma PrintableName(env: Env, ctx: Value)
    requires RenderLeaf(Tag, "a", env, ctx).Done?
    ensures var val := env.lookup(ctx, "a"); !val.NotAnObject? && (val.Found? ==> !val.value.Array?)
  {
    hide Escape;
  }

  lemma GuardedEnd(env: Env, ctx: Value)
    ensures Renderable(GUARDED) && Walk(GUARDED, env, ctx, 4, "") == At("", 4)
    ensures Walk(GUARDED, env, ctx, 3, "") == At("x", 4)
    ensures var tag := RenderLeaf(Tag, "a", env, ctx);
            tag.Done? ==> Walk(GUARDED, env, ctx, 2, "") == At(tag.out + "x", 4)
  {
    var c := GUARDED;
    assert Walk(c, env, ctx, 4, "") == At("", 4);
    WalkOverClose(c, env, ctx, 3, "x", "a", "");
    WalkEnters(c, env, ctx, 2, "");
    hide Walk, RenderLeaf;
  }

  lemma GuardedSection(env: Env, ctx: Value)
    requires RenderLeaf(Tag, "a", env, ctx).Done?
    ensures Renderable(GUARDED) && !env.lookup(ctx, "a").NotAnObject?
    ensures WalkTag(GUARDED, env, ctx, 1) == At("", if IsEmpty(env.lookup(ctx, "a")) then 3 else 1)
  {
    PrintableName(env, ctx);
    hide RenderLeaf;
    assert FindClose(GUARDED, "a", 1) == 3;
    assert AtStop(GUARDED, 1, "a");
  }

  lemma GuardedWalk(env: Env, ctx: Value)
    ensures Renderable(GUARDED) && Render(GUARDED, env, ctx) == GuardedRun(env, ctx)
  {
    var c, tag := GUARDED, RenderLeaf(Tag, "a", env, ctx);
    GuardedEnd(env, ctx);
    WalkEnters(c, env, ctx, 0, "");
    if tag.Done? {
      GuardedSection(env, ctx);
      WalkEnters(c, env, ctx, 1, "");
      hide Walk, FindClose, RenderLeaf, IsEmpty;
      assert WalkTag(c, env, ctx, 0) == At(tag.out, 0);
    }
    hide Walk, RenderLeaf;
  }

  lemma GuardedTree(env: Env, ctx: Value)
    ensures RenderTree(GUARDED_TREE, env, ctx, AsWritten) == GuardedRun(env, ctx)
  {
    var tag := RenderLeaf(Tag, "a", env, ctx);
    var body := Node("", "a", Leaf(Tag), End);
    assert RenderTree(body, env, ctx, AsWritten) == tag by { assert "" + (tag.out + "") == tag.out; }
    hide SameName;
    assert (tag.out + "x") + "" == tag.out + "x";
  }

  /**
   A tag in front that throws whenever the name is an array keeps a harmful section from being run as
   one: for whole templates harmless reuse is sufficient, and not necessary.
   */
  lemma GuardedReuse(env: Env, ctx: Value)
    ensures Compiled(GUARDED, GUARDED_TREE) && !ReuseHarmless(GUARDED_TREE)
    ensures SameRun(GUARDED, GUARDED_TREE, env, ctx)
  {
    hide GuardedRun, Render, RenderTree, Compiled, ReuseHarmless;
    GuardedShape();
    GuardedWalk(env, ctx);
    GuardedTree(env, ctx);
    var run := GuardedRun(env, ctx);
    assert run.out + "" == run.out;
  }
}
