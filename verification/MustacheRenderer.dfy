/**
 The renderer walks the two flat arrays with one index that jumps over blocks and re-enters
 them. It is compared with a recursive interpreter of the template's tree, for every context,
 every key lookup and every behaviour of partials.
 */
module MustacheRenderer {
  import opened MustacheTemplate

  /** Context values. A number is represented by the text it is printed as. */
  datatype Value =
    | Null
    | Bool(b: bool)
    | Number(text: string)
    | Str(s: string)
    | Array(elements: seq<Value>)
    | Object(members: seq<(string, Value)>)

  /** Looking a key up throws when the context is not an object. */
  datatype Lookup = NotAnObject | Missing | Found(value: Value)

  /** Output so far, and whether the run ended normally or with an exception. */
  datatype Run = Done(out: string) | Threw(out: string)

  datatype Env = Env(lookup: (Value, string) -> Lookup, partial: (string, Value) -> Run)

  predicate IsEmpty(val: Lookup)
    requires !val.NotAnObject?
  {
    match val
    case Missing => true
    case Found(Null) => true
    case Found(Bool(b)) => !b
    case Found(Number(_)) => false
    case Found(Str(s)) => s == ""
    case Found(Array(es)) => es == []
    case Found(Object(ms)) => ms == []
  }

  /** What counts as empty, by the values themselves. */
  lemma EmptyValues(v: Value)
    ensures IsEmpty(Found(v)) <==> v in {Null, Bool(false), Str(""), Array([]), Object([])}
    ensures IsEmpty(Missing)
  {
  }

  function EscapeChar(ch: char): string {
    match ch
    case '&' => "&amp;"
    case '<' => "&lt;"
    case '>' => "&gt;"
    case '"' => "&quot;"
    case '\'' => "&#39;"
    case '/' => "&#x2f;"
    case _ => [ch]
  }

  function Escape(s: string): string {
    if s == "" then "" else EscapeChar(s[0]) + Escape(s[1..])
  }

  /** A tag that is not part of a block. A missing key counts as a false boolean. */
  function RenderLeaf(tag: ActionType, name: string, env: Env, ctx: Value): Run
    requires IsLeafTag(tag)
  {
    match tag
    case Ignore => Done("")
    case Partial => env.partial(name, ctx)
    case _ =>
      match env.lookup(ctx, name)
      case NotAnObject => Threw("")
      case Missing => Done("false")
      case Found(Bool(b)) => Done(if b then "true" else "false")
      case Found(Number(text)) => Done(text)
      case Found(Str(s)) => Done(if tag == UnEscapeTag then s else Escape(s))
      case Found(_) => Threw("")
  }

  // ----- The flat renderer -----

  /** Output, and the index where the walk stands, unless it threw. */
  datatype Flow = At(out: string, index: nat) | Stopped(out: string)

  function Before(out: string, f: Flow): Flow {
    match f
    case At(o, i) => At(out + o, i)
    case Stopped(o) => Stopped(out + o)
  }

  predicate AtStop(c: Code, index: nat, stop: string) {
    index < |c.ops| && stop != "" && SameName(c.ops[index].name, stop)
  }

  /** First index from `i` on whose action is a CloseBlock with the name, or the action count. */
  function FindClose(c: Code, name: string, i: nat): (r: nat)
    ensures i <= r
    decreases |c.ops| - i
  {
    if i >= |c.ops| || (SameName(c.ops[i].name, name) && c.ops[i].tag == CloseBlock) then i
    else FindClose(c, name, i + 1)
  }

  /** The main loop: fragment, then action, until the stop name or the end. */
  function Walk(c: Code, env: Env, ctx: Value, index: nat, stop: string): (r: Flow)
    requires Renderable(c)
    ensures r.At? ==> index <= r.index
    decreases |c.texts| - index, if AtStop(c, index, stop) then 0 else 4
  {
    if index >= |c.texts| then At("", index)
    else if AtStop(c, index, stop) then At(c.texts[index], index)
    else if index >= |c.ops| then Before(c.texts[index], Walk(c, env, ctx, index + 1, stop))
    else Before(c.texts[index], TagAndOn(c, env, ctx, index, stop))
  }

  /** One action and what comes after it. */
  function TagAndOn(c: Code, env: Env, ctx: Value, index: nat, stop: string): (r: Flow)
    requires Renderable(c) && index < |c.ops|
    ensures r.At? ==> index <= r.index
    decreases |c.texts| - index, 3
  {
    match WalkTag(c, env, ctx, index)
    case Stopped(out) => Stopped(out)
    case At(out, i) => Before(out, Walk(c, env, ctx, i + 1, stop))
  }

  /** One action; the result index is where the action leaves the walk. */
  function WalkTag(c: Code, env: Env, ctx: Value, index: nat): (r: Flow)
    requires Renderable(c) && index < |c.ops|
    ensures r.At? ==> index <= r.index
    decreases |c.texts| - index, 2
  {
    var name := c.ops[index].name;
    match c.ops[index].tag
    case CloseBlock => At("", index)
    case ElseBlock =>
      assert ElseIsClosed(c, index);
      var val := env.lookup(ctx, name);
      if val.NotAnObject? then Stopped("")
      else At(if IsEmpty(val) then c.texts[index + 1] else "", index + 1)
    case OpenBlock =>
      var val := env.lookup(ctx, name);
      if val.NotAnObject? then Stopped("")
      else if IsEmpty(val) then At("", FindClose(c, name, index))
      else if val.value.Array? then WalkEach(c, env, val.value.elements, index, index)
      else Walk(c, env, val.value, index, name)
    case tag =>
      match RenderLeaf(tag, name, env, ctx)
      case Done(out) => At(out, index)
      case Threw(out) => Stopped(out)
  }

  /** The block body once for every element; `id` is where the previous element left off. */
  function WalkEach(c: Code, env: Env, es: seq<Value>, index: nat, id: nat): (r: Flow)
    requires Renderable(c) && index < |c.ops| && index <= id
    ensures r.At? ==> index <= r.index
    decreases |c.texts| - index, 1, |es|
  {
    if es == [] then At("", id) else
      match Walk(c, env, es[0], index + 1, c.ops[index].name)
      case Stopped(out) => Stopped(out)
      case At(out, i) => Before(out, WalkEach(c, env, es[1..], index, i))
  }

  // ----- The tree interpreter -----

  function Then(a: Run, b: Run): Run {
    match a
    case Threw(_) => a
    case Done(out) =>
      match b
      case Done(o) => Done(out + o)
      case Threw(o) => Threw(out + o)
  }

  /** How a block is run when its value is neither empty nor an array: the code prints the opening
      fragment again and runs the body in the surrounding context; the intent is to run the body
      once, in the context of the value. */
  datatype Style = AsWritten | AsIntended

  function RenderTree(tree: Tree, env: Env, ctx: Value, style: Style): Run
    decreases tree, 0
  {
    match tree
    case End => Done("")
    case Node(text, name, item, rest) =>
      Then(Done(text), Then(RenderItem(text, name, item, env, ctx, style), RenderTree(rest, env, ctx, style)))
  }

  /** One item, without the fragment `text` before it. */
  function RenderItem(text: string, name: string, item: Item, env: Env, ctx: Value, style: Style): Run
    decreases item, 0
  {
    var val := env.lookup(ctx, name);
    match item
    case Leaf(tag) => if IsLeafTag(tag) then RenderLeaf(tag, name, env, ctx) else Threw("")
    case Inverted(inner) =>
      if val.NotAnObject? then Threw("") else Done(if IsEmpty(val) then inner else "")
    case Section(kids, closing) =>
      if val.NotAnObject? then Threw("")
      else if IsEmpty(val) then Done("")
      else if val.value.Array? then RenderEach(kids, closing, env, val.value.elements, style)
      else if style == AsIntended then Then(RenderTree(kids, env, val.value, style), Done(closing))
      else Then(Done(text), Then(RenderTree(kids, env, ctx, style), Done(closing)))
  }

  function RenderEach(kids: Tree, closing: string, env: Env, es: seq<Value>, style: Style): Run
    decreases kids, 1, |es|
  {
    if es == [] then Done("") else
      Then(RenderTree(kids, env, es[0], style),
           Then(Done(closing), RenderEach(kids, closing, env, es[1..], style)))
  }

  // ----- Algebra of runs and walks -----

  /** A run followed by a walk. */
  function Follow(r: Run, f: Flow): Flow {
    match r
    case Done(out) => Before(out, f)
    case Threw(out) => Stopped(out)
  }

  lemma FollowThen(a: Run, b: Run, f: Flow)
    ensures Follow(Then(a, b), f) == Follow(a, Follow(b, f))
  {
    if a.Done? && b.Done? {
      assert (a.out + b.out) + f.out == a.out + (b.out + f.out);
    }
  }

  // ----- Names inside a tree -----

  /** Between `q` and `j` there is no text, and no tag but comments and closing tags. */
  predicate AllQuiet(c: Code, q: int, j: nat) {
    j <= |c.ops| && j <= |c.texts|
    && forall t :: 0 <= t && q < t < j ==> c.texts[t] == "" && (c.ops[t].tag == Ignore || c.ops[t].tag == CloseBlock)
  }

  lemma {:induction false} SpanInside(c: Code, i: nat, tree: Tree)
    requires Spans(c, i, tree) && i <= |c.ops| && i <= |c.texts|
    ensures i + Size(tree) <= |c.ops| && i + Size(tree) <= |c.texts|
    decreases tree
  {
    if tree.Node? { SpanInside(c, i + ItemSize(tree.item), tree.rest); }
  }

  lemma {:induction false} QuietSpan(c: Code, i: nat, tree: Tree)
    requires Spans(c, i, tree) && Quiet(tree) && i <= |c.ops| && i <= |c.texts|
    ensures AllQuiet(c, i - 1, i + Size(tree))
    decreases tree
  {
    if tree.Node? { QuietSpan(c, i + 1, tree.rest); }
  }

  lemma {:induction false} QuietRuns(tree: Tree, env: Env, ctx: Value, style: Style)
    requires Quiet(tree)
    ensures RenderTree(tree, env, ctx, style) == Done("")
  {
    if tree.Node? { QuietRuns(tree.rest, env, ctx, style); }
  }

  /** Where a name is borne in a span, the tree bears it; where that is harmless, it is a comment. */
  lemma {:induction false} BorneAt(c: Code, i: nat, tree: Tree, name: string, t: nat)
    requires Spans(c, i, tree) && i <= t < i + Size(tree) && t < |c.ops| && SameName(c.ops[t].name, name)
    ensures Bears(tree, name) && (QuietAfter(tree, name) ==> c.ops[t].tag == Ignore)
    decreases tree
  {
    var j := i + ItemSize(tree.item);
    if t >= j {
      if Quiet(tree.rest) { QuietSpan(c, j, tree.rest); IgnoredAt(c, j, tree.rest, t); }
      BorneAt(c, j, tree.rest, name, t);
    } else if tree.item.Section? && i < t < j - 1 {
      BorneAt(c, i + 1, tree.item.kids, name, t);
    }
  }

  lemma {:induction false} IgnoredAt(c: Code, i: nat, tree: Tree, t: nat)
    requires Spans(c, i, tree) && Quiet(tree) && i <= t < i + Size(tree) && t < |c.ops|
    ensures c.ops[t].tag == Ignore
    decreases tree
  {
    if t > i { IgnoredAt(c, i + 1, tree.rest, t); }
  }

  lemma {:induction false} FindCloseAt(c: Code, name: string, i: nat, k: nat)
    requires i <= k < |c.ops| && SameName(c.ops[k].name, name) && c.ops[k].tag == CloseBlock
    requires forall t :: i <= t < k ==> !(SameName(c.ops[t].name, name) && c.ops[t].tag == CloseBlock)
    ensures FindClose(c, name, i) == k
    decreases k - i
  {
    if i < k { FindCloseAt(c, name, i + 1, k); }
  }

  /** Skipping a block leads to its own closing tag. */
  lemma SkipFindsClose(c: Code, i: nat, text: string, name: string, kids: Tree, closing: string)
    requires SpansItem(c, i, text, name, Section(kids, closing)) && QuietAfter(kids, name)
    ensures FindClose(c, name, i) == i + 1 + Size(kids)
  {
    var k := i + 1 + Size(kids);
    forall t | i <= t < k ensures !(SameName(c.ops[t].name, name) && c.ops[t].tag == CloseBlock) {
      if t > i && SameName(c.ops[t].name, name) { BorneAt(c, i + 1, kids, name, t); }
    }
    FindCloseAt(c, name, i, k);
  }

  // ----- The flat walk does what the tree says -----

  /** The walk goes through the whole tree. */
  ghost predicate Agrees(c: Code, env: Env, ctx: Value, i: nat, tree: Tree, stop: string)
    requires Renderable(c)
  {
    Walk(c, env, ctx, i, stop)
    == Follow(RenderTree(tree, env, ctx, AsWritten), Walk(c, env, ctx, i + Size(tree), stop))
  }

  /** The walk stops inside the tree, when it has written all there is to write. */
  ghost predicate Halts(c: Code, env: Env, ctx: Value, i: nat, tree: Tree, stop: string)
    requires Renderable(c)
  {
    var run, walk := RenderTree(tree, env, ctx, AsWritten), Walk(c, env, ctx, i, stop);
    && Bears(tree, stop) && run.Done? && walk.At? && walk.out == run.out
    && i <= walk.index < i + Size(tree) && AllQuiet(c, walk.index, i + Size(tree))
  }

  /** The walk enters a cell that it does not stop at. */
  lemma WalkEnters(c: Code, env: Env, ctx: Value, i: nat, stop: string)
    requires Renderable(c) && i < |c.ops| && (stop == "" || !SameName(c.ops[i].name, stop))
    ensures Walk(c, env, ctx, i, stop) == Before(c.texts[i], TagAndOn(c, env, ctx, i, stop))
  {
    hide TagAndOn, SameName;
  }

  /** Walking where nothing is left leads on, or stops without writing anything. */
  lemma {:induction false} QuietWalk(c: Code, env: Env, ctx: Value, q: nat, j: nat, stop: string)
    requires Renderable(c) && q < j && AllQuiet(c, q, j)
    ensures var walk := Walk(c, env, ctx, q + 1, stop);
            || walk == Walk(c, env, ctx, j, stop)
            || (walk.At? && walk.out == "" && q < walk.index < j && AtStop(c, walk.index, stop))
    decreases j - q
  {
    var t := q + 1;
    if t < j {
      if !AtStop(c, t, stop) {
        QuietWalk(c, env, ctx, t, j, stop);
        WalkEnters(c, env, ctx, t, stop);
        hide Walk;
        assert WalkTag(c, env, ctx, t) == At("", t);
      }
    }
  }

  /** Walking over a closing tag prints the fragment before it. */
  lemma WalkOverClose(c: Code, env: Env, ctx: Value, k: nat, closing: string, name: string, stop: string)
    requires Renderable(c) && Cell(c, k, closing, CloseBlock, name) && (stop == "" || !SameName(name, stop))
    ensures Walk(c, env, ctx, k, stop) == Before(closing, Walk(c, env, ctx, k + 1, stop))
  {
    WalkEnters(c, env, ctx, k, stop);
    hide Walk;
    assert WalkTag(c, env, ctx, k) == At("", k);
  }

  /** A block that is run once stops at its own opening tag, having printed the fragment again. */
  lemma OnceStopsAtOpener(c: Code, env: Env, ctx: Value, i: nat, text: string, name: string)
    requires Renderable(c) && Cell(c, i, text, OpenBlock, name)
    requires var val := env.lookup(ctx, name); val.Found? && !IsEmpty(val) && !val.value.Array?
    ensures WalkTag(c, env, ctx, i) == At(text, i)
  {
    assert AtStop(c, i, name);
  }

  /** A run in front of a walk, put together from one element and the others. */
  lemma EachJoins(one: Run, closing: string, others: Run, at: nat, q: nat)
    ensures var first, more := Follow(one, At(closing, at)), Follow(others, At("", q));
            (if first.Stopped? then first else Before(first.out, more))
            == Follow(Then(one, Then(Done(closing), others)), At("", q))
  {
    FollowThen(one, Then(Done(closing), others), At("", q));
    FollowThen(Done(closing), others, At("", q));
    if one.Done? {
      var more := Follow(others, At("", q));
      assert one.out + closing + more.out == one.out + (closing + more.out);
    }
  }

  /** The element loop: every element runs the body, and the last one leaves the walk where nothing is left. */
  lemma {:induction false} EachIsTree(c: Code, env: Env, es: seq<Value>, i: nat, id: nat,
                                      text: string, name: string, kids: Tree, closing: string) returns (q: nat)
    requires Renderable(c) && SpansItem(c, i, text, name, Section(kids, closing)) && i <= id
    requires Harmless(kids, closing, name) && ReuseHarmless(kids)
    ensures WalkEach(c, env, es, i, id) == Follow(RenderEach(kids, closing, env, es, AsWritten), At("", q))
    ensures if es == [] then q == id else i < q < i + 2 + Size(kids) && AllQuiet(c, q, i + 2 + Size(kids))
    decreases kids, 4, |es|
  {
    hide WalkTag, TagAndOn, RenderTree, Harmless, ReuseHarmless, AllQuiet;
    q := id;
    if es != [] {
      var at := OneElement(c, env, es[0], i, text, name, kids, closing);
      SpansItemOpens(c, i, text, name, kids, closing);
      hide Walk, SpansItem;
      q := EachIsTree(c, env, es[1..], i, at, text, name, kids, closing);
      EachJoins(RenderTree(kids, env, es[0], AsWritten), closing, RenderEach(kids, closing, env, es[1..], AsWritten),
                at, q);
      hide Then, Follow, Before;
    }
  }

  lemma SpansItemOpens(c: Code, i: nat, text: string, name: string, kids: Tree, closing: string)
    requires SpansItem(c, i, text, name, Section(kids, closing))
    ensures i < |c.ops| && c.ops[i].name == name && c.ops[i].tag == OpenBlock
  {
  }

  /** One element: the body and the fragment before the closing tag. */
  lemma {:induction false} OneElement(c: Code, env: Env, e: Value, i: nat,
                                      text: string, name: string, kids: Tree, closing: string) returns (q: nat)
    requires Renderable(c) && SpansItem(c, i, text, name, Section(kids, closing))
    requires Harmless(kids, closing, name) && ReuseHarmless(kids)
    ensures Walk(c, env, e, i + 1, name)
            == Follow(RenderTree(kids, env, e, AsWritten), At(closing, q))
    ensures i < q < i + 2 + Size(kids) && AllQuiet(c, q, i + 2 + Size(kids))
    decreases kids, 3
  {
    hide TagAndOn, RenderTree, QuietAfter, ReuseHarmless;
    var k := i + 1 + Size(kids);
    WalkIsTree(c, env, e, i + 1, kids, name);
    assert Walk(c, env, e, k, name) == At(closing, k);
    hide Walk;
    if Agrees(c, env, e, i + 1, kids, name) {
      q := k;
    } else {
      q := Walk(c, env, e, i + 1, name).index;
    }
  }

  /**
   Main lemma: wherever reuse of names is harmless, walking the cells of a tree is running the tree,
   under any stop name that the tree bears harmlessly.
   */
  lemma {:induction false} WalkIsTree(c: Code, env: Env, ctx: Value, i: nat, tree: Tree, stop: string)
    requires Renderable(c) && Spans(c, i, tree) && i <= |c.ops| && ReuseHarmless(tree)
    requires stop == "" || QuietAfter(tree, stop)
    ensures Agrees(c, env, ctx, i, tree, stop) || (stop != "" && Halts(c, env, ctx, i, tree, stop))
    decreases tree, 2
  {
    if tree.Node? {
      if stop != "" && SameName(tree.name, stop) {
        QuietRuns(tree.rest, env, ctx, AsWritten);
        QuietSpan(c, i + 1, tree.rest);
        hide RenderTree;
        assert RenderTree(tree, env, ctx, AsWritten) == Done(tree.text) by { StoppedRun(tree, env, ctx); }
      } else {
        NodeIsTree(c, env, ctx, i, tree, stop);
      }
    }
  }

  lemma StoppedRun(tree: Tree, env: Env, ctx: Value)
    requires tree.Node? && tree.item == Leaf(Ignore) && RenderTree(tree.rest, env, ctx, AsWritten) == Done("")
    ensures RenderTree(tree, env, ctx, AsWritten) == Done(tree.text)
  {
  }

  /** An item and what comes after it: as its run and on, or stopping where nothing is left. */
  ghost predicate ItemGoes(c: Code, env: Env, ctx: Value, i: nat, text: string, name: string, item: Item, stop: string)
    requires Renderable(c) && i < |c.ops|
  {
    var run, walk := RenderItem(text, name, item, env, ctx, AsWritten), TagAndOn(c, env, ctx, i, stop);
    var j := i + ItemSize(item);
    || walk == Follow(run, Walk(c, env, ctx, j, stop))
    || (stop != "" && ItemHalts(c, i, item, stop, run, walk))
  }

  predicate ItemHalts(c: Code, i: nat, item: Item, stop: string, run: Run, walk: Flow) {
    && item.Section? && Bears(item.kids, stop) && run.Done? && walk.At? && walk.out == run.out
    && i < walk.index < i + ItemSize(item) && AllQuiet(c, walk.index, i + ItemSize(item))
  }

  /** A tree whose first tag is not the one to stop at. */
  lemma {:induction false} NodeIsTree(c: Code, env: Env, ctx: Value, i: nat, tree: Tree, stop: string)
    requires Renderable(c) && Spans(c, i, tree) && tree.Node? && ReuseHarmless(tree)
    requires stop == "" || (QuietAfter(tree, stop) && !SameName(tree.name, stop))
    ensures Agrees(c, env, ctx, i, tree, stop) || (stop != "" && Halts(c, env, ctx, i, tree, stop))
    decreases tree, 1
  {
    hide Walk, TagAndOn, RenderItem, Agrees, Halts, ItemHalts;
    var j := i + ItemSize(tree.item);
    CellInside(c, i, tree);
    if stop != "" && tree.item.Section? && !Bears(tree.item.kids, stop) { NotBorneIsQuiet(tree.item.kids, stop); }
    ItemIsTree(c, env, ctx, i, tree.text, tree.name, tree.item, stop);
    WalkEnters(c, env, ctx, i, stop);
    var item := RenderItem(tree.text, tree.name, tree.item, env, ctx, AsWritten);
    if TagAndOn(c, env, ctx, i, stop) == Follow(item, Walk(c, env, ctx, j, stop)) {
      RestIsTree(c, env, ctx, i, tree, stop);
    } else {
      StopsInItem(c, env, ctx, i, tree, stop);
    }
  }

  /** The walk stopped inside the first item, and nothing is left behind it. */
  lemma StopsInItem(c: Code, env: Env, ctx: Value, i: nat, tree: Tree, stop: string)
    requires Renderable(c) && Spans(c, i, tree) && tree.Node? && i < |c.ops|
    requires stop != "" && QuietAfter(tree, stop) && !SameName(tree.name, stop)
    requires Walk(c, env, ctx, i, stop) == Before(tree.text, TagAndOn(c, env, ctx, i, stop))
    requires ItemHalts(c, i, tree.item, stop, RenderItem(tree.text, tree.name, tree.item, env, ctx, AsWritten),
                       TagAndOn(c, env, ctx, i, stop))
    ensures Halts(c, env, ctx, i, tree, stop)
  {
    hide Walk, TagAndOn, RenderItem;
    SpanInside(c, i, tree);
    QuietRuns(tree.rest, env, ctx, AsWritten);
    QuietSpan(c, i + ItemSize(tree.item), tree.rest);
    HaltedRun(tree, env, ctx, RenderItem(tree.text, tree.name, tree.item, env, ctx, AsWritten));
  }

  lemma HaltedRun(tree: Tree, env: Env, ctx: Value, item: Run)
    requires tree.Node? && RenderTree(tree.rest, env, ctx, AsWritten) == Done("")
    requires item == RenderItem(tree.text, tree.name, tree.item, env, ctx, AsWritten) && item.Done?
    ensures RenderTree(tree, env, ctx, AsWritten) == Done(tree.text + item.out)
  {
    hide RenderItem;
    assert tree.text + (item.out + "") == tree.text + item.out;
  }

  lemma {:induction false} RestIsTree(c: Code, env: Env, ctx: Value, i: nat, tree: Tree, stop: string)
    requires Renderable(c) && Spans(c, i, tree) && tree.Node? && ReuseHarmless(tree)
    requires stop == "" || (QuietAfter(tree, stop) && !SameName(tree.name, stop))
    requires i < |c.ops| && Walk(c, env, ctx, i, stop) == Before(tree.text, TagAndOn(c, env, ctx, i, stop))
    requires TagAndOn(c, env, ctx, i, stop)
             == Follow(RenderItem(tree.text, tree.name, tree.item, env, ctx, AsWritten),
                       Walk(c, env, ctx, i + ItemSize(tree.item), stop))
    ensures Agrees(c, env, ctx, i, tree, stop) || (stop != "" && Halts(c, env, ctx, i, tree, stop))
    decreases tree, 0
  {
    var j := i + ItemSize(tree.item);
    if stop != "" && !QuietAfter(tree.rest, stop) {
      QuietHasQuietAfter(tree.rest, stop);
      assert false;
    }
    CellInside(c, i, tree);
    WalkIsTree(c, env, ctx, j, tree.rest, stop);
    hide Walk, TagAndOn, RenderItem;
    var item := RenderItem(tree.text, tree.name, tree.item, env, ctx, AsWritten);
    var rest := RenderTree(tree.rest, env, ctx, AsWritten);
    var end := Walk(c, env, ctx, i + Size(tree), stop);
    FollowThen(Done(tree.text), Then(item, rest), end);
    FollowThen(item, rest, end);
    if !Agrees(c, env, ctx, j, tree.rest, stop) {
      var at := Walk(c, env, ctx, j, stop).index;
      FollowThen(Done(tree.text), Then(item, rest), At("", at));
      FollowThen(item, rest, At("", at));
    }
  }

  lemma CellInside(c: Code, i: nat, tree: Tree)
    requires Spans(c, i, tree) && tree.Node? && |c.ops| <= |c.texts|
    ensures i + ItemSize(tree.item) <= |c.ops| && c.ops[i].name == tree.name && c.texts[i] == tree.text
  {
  }

  lemma {:induction false} QuietHasQuietAfter(tree: Tree, name: string)
    requires Quiet(tree)
    ensures QuietAfter(tree, name)
  {
    if tree.Node? { QuietHasQuietAfter(tree.rest, name); }
  }

  lemma {:induction false} ItemIsTree(c: Code, env: Env, ctx: Value, i: nat, text: string, name: string, item: Item,
                                      stop: string)
    requires Renderable(c) && SpansItem(c, i, text, name, item) && (stop == "" || !SameName(name, stop))
    requires item.Section? ==> Harmless(item.kids, item.closing, name) && ReuseHarmless(item.kids)
    requires item.Section? && stop != "" ==> Harmless(item.kids, item.closing, stop)
    ensures ItemGoes(c, env, ctx, i, text, name, item, stop)
    decreases item, 0
  {
    hide Walk, RenderItem, TagAndOn, SpansItem, SameName, Harmless, ReuseHarmless, Bears, WalkEach, RenderEach;
    var val := env.lookup(ctx, name);
    if item.Section? && val.Found? && !IsEmpty(val) {
      if val.value.Array? {
        var q := EachIsTree(c, env, val.value.elements, i, i, text, name, item.kids, item.closing);
        EachGoes(c, env, ctx, i, text, name, item.kids, item.closing, stop, q);
      } else {
        OnceIsTree(c, env, ctx, i, text, name, item.kids, item.closing, stop);
      }
    } else {
      if item.Section? { HarmlessIsQuiet(item.kids, item.closing, name); }
      SkippedItem(c, env, ctx, i, text, name, item, stop);
    }
  }

  /** A lone tag, an inverted section, or a section that is skipped. */
  lemma SkippedItem(c: Code, env: Env, ctx: Value, i: nat, text: string, name: string, item: Item, stop: string)
    requires Renderable(c) && SpansItem(c, i, text, name, item)
    requires item.Section? ==> QuietAfter(item.kids, name)
    requires var val := env.lookup(ctx, name); item.Section? && val.Found? ==> IsEmpty(val)
    ensures i < |c.ops|
    ensures TagAndOn(c, env, ctx, i, stop)
         == Follow(RenderItem(text, name, item, env, ctx, AsWritten), Walk(c, env, ctx, i + ItemSize(item), stop))
  {
    hide Walk, WalkEach, RenderTree, RenderEach, RenderLeaf, SameName, FindClose, QuietAfter;
    if item.Section? { SkipFindsClose(c, i, text, name, item.kids, item.closing); }
  }

  lemma HarmlessIsQuiet(kids: Tree, closing: string, name: string)
    requires Harmless(kids, closing, name)
    ensures QuietAfter(kids, name) && (Bears(kids, name) ==> closing == "")
  {
  }

  lemma EachTag(c: Code, env: Env, ctx: Value, i: nat, text: string, name: string, kids: Tree, closing: string)
    requires Renderable(c) && SpansItem(c, i, text, name, Section(kids, closing))
    requires var val := env.lookup(ctx, name); val.Found? && !IsEmpty(val) && val.value.Array?
    ensures var es := env.lookup(ctx, name).value.elements;
            && WalkTag(c, env, ctx, i) == WalkEach(c, env, es, i, i)
            && RenderItem(text, name, Section(kids, closing), env, ctx, AsWritten)
               == RenderEach(kids, closing, env, es, AsWritten)
  {
    hide WalkEach, RenderEach;
  }

  lemma TagThenWalk(c: Code, env: Env, ctx: Value, i: nat, stop: string, run: Run, q: nat)
    requires Renderable(c) && i < |c.ops| && i <= q && WalkTag(c, env, ctx, i) == Follow(run, At("", q))
    ensures TagAndOn(c, env, ctx, i, stop) == Follow(run, Walk(c, env, ctx, q + 1, stop))
  {
    hide Walk, WalkTag;
  }

  /** Behind the element loop the walk goes on to the closing tag, or stops on the way there. */
  lemma EachGoes(c: Code, env: Env, ctx: Value, i: nat, text: string, name: string, kids: Tree, closing: string,
                 stop: string, q: nat)
    requires Renderable(c) && SpansItem(c, i, text, name, Section(kids, closing))
             && (stop == "" || !SameName(name, stop))
    requires var val := env.lookup(ctx, name); val.Found? && !IsEmpty(val) && val.value.Array?
    requires WalkEach(c, env, env.lookup(ctx, name).value.elements, i, i)
             == Follow(RenderEach(kids, closing, env, env.lookup(ctx, name).value.elements, AsWritten), At("", q))
    requires i < q < i + 2 + Size(kids) && AllQuiet(c, q, i + 2 + Size(kids))
    ensures ItemGoes(c, env, ctx, i, text, name, Section(kids, closing), stop)
  {
    hide Walk, WalkEach, RenderEach, Bears, WalkTag, RenderItem, TagAndOn, SpansItem;
    var j := i + 2 + Size(kids);
    QuietWalk(c, env, ctx, q, j, stop);
    var walk := Walk(c, env, ctx, q + 1, stop);
    var run := RenderItem(text, name, Section(kids, closing), env, ctx, AsWritten);
    EachTag(c, env, ctx, i, text, name, kids, closing);
    TagThenWalk(c, env, ctx, i, stop, run, q);
    SpansItemOpens(c, i, text, name, kids, closing);
    if walk != Walk(c, env, ctx, j, stop) && run.Done? {
      LastName(c, i, text, name, kids, closing);
      BorneAt(c, i + 1, kids, stop, walk.index);
      assert run.out + "" == run.out;
    }
  }

  lemma LastName(c: Code, i: nat, text: string, name: string, kids: Tree, closing: string)
    requires SpansItem(c, i, text, name, Section(kids, closing))
    ensures var k := i + 1 + Size(kids); k < |c.ops| && c.ops[k].name == name && Spans(c, i + 1, kids)
  {
  }

  lemma {:induction false} OnceIsTree(c: Code, env: Env, ctx: Value, i: nat, text: string, name: string, kids: Tree,
                                      closing: string, stop: string)
    requires Renderable(c) && SpansItem(c, i, text, name, Section(kids, closing))
             && (stop == "" || !SameName(name, stop))
    requires var val := env.lookup(ctx, name); val.Found? && !IsEmpty(val) && !val.value.Array?
    requires ReuseHarmless(kids) && (stop != "" ==> Harmless(kids, closing, stop))
    ensures ItemGoes(c, env, ctx, i, text, name, Section(kids, closing), stop)
    decreases kids, 3
  {
    hide Walk, TagAndOn, RenderItem, RenderTree, SameName, ReuseHarmless, QuietAfter, Agrees, Halts, ItemGoes,
         SpansItem;
    LastName(c, i, text, name, kids, closing);
    WalkIsTree(c, env, ctx, i + 1, kids, stop);
    if Agrees(c, env, ctx, i + 1, kids, stop) {
      OnceGoesOn(c, env, ctx, i, text, name, kids, closing, stop);
    } else {
      OnceHalts(c, env, ctx, i, text, name, kids, closing, stop);
    }
  }

  lemma OnceGoesOn(c: Code, env: Env, ctx: Value, i: nat, text: string, name: string, kids: Tree, closing: string,
                   stop: string)
    requires Renderable(c) && SpansItem(c, i, text, name, Section(kids, closing))
             && (stop == "" || !SameName(name, stop))
    requires var val := env.lookup(ctx, name); val.Found? && !IsEmpty(val) && !val.value.Array?
    requires Agrees(c, env, ctx, i + 1, kids, stop)
    ensures ItemGoes(c, env, ctx, i, text, name, Section(kids, closing), stop)
  {
    hide Walk, TagAndOn, RenderItem, RenderTree, SameName;
    var k := i + 1 + Size(kids);
    var onward := Walk(c, env, ctx, k + 1, stop);
    var run := RenderTree(kids, env, ctx, AsWritten);
    OnceTag(c, env, ctx, i, text, name, kids, closing, stop);
    WalkOverClose(c, env, ctx, k, closing, name, stop);
    FollowThen(run, Done(closing), onward);
    FollowThen(Done(text), Then(run, Done(closing)), onward);
  }

  lemma OnceHalts(c: Code, env: Env, ctx: Value, i: nat, text: string, name: string, kids: Tree, closing: string,
                  stop: string)
    requires Renderable(c) && SpansItem(c, i, text, name, Section(kids, closing))
    requires var val := env.lookup(ctx, name); val.Found? && !IsEmpty(val) && !val.value.Array?
    requires stop != "" && Harmless(kids, closing, stop) && Halts(c, env, ctx, i + 1, kids, stop)
    ensures ItemGoes(c, env, ctx, i, text, name, Section(kids, closing), stop)
  {
    hide Walk, TagAndOn, RenderItem, RenderTree, SameName, Bears, QuietAfter;
    var run := RenderTree(kids, env, ctx, AsWritten);
    OnceTag(c, env, ctx, i, text, name, kids, closing, stop);
    assert text + (run.out + "") == text + run.out;
  }

  lemma OnceTag(c: Code, env: Env, ctx: Value, i: nat, text: string, name: string, kids: Tree, closing: string,
                stop: string)
    requires Renderable(c) && SpansItem(c, i, text, name, Section(kids, closing))
    requires var val := env.lookup(ctx, name); val.Found? && !IsEmpty(val) && !val.value.Array?
    ensures TagAndOn(c, env, ctx, i, stop) == Before(text, Walk(c, env, ctx, i + 1, stop))
    ensures RenderItem(text, name, Section(kids, closing), env, ctx, AsWritten)
            == Then(Done(text), Then(RenderTree(kids, env, ctx, AsWritten), Done(closing)))
  {
    hide Walk, RenderTree, WalkTag;
    OnceStopsAtOpener(c, env, ctx, i, text, name);
  }

  // ----- Whole templates -----

  /** Rendering starts at index 0 with no stop name. */
  function Render(c: Code, env: Env, ctx: Value): Run
    requires Renderable(c)
  {
    match Walk(c, env, ctx, 0, "")
    case At(out, _) => Done(out)
    case Stopped(out) => Threw(out)
  }

  /** The fragment after the last tag. */
  function Tail(c: Code): string {
    if |c.ops| < |c.texts| then c.texts[|c.ops|] else ""
  }

  /** Rendering a template that is the compilation of a tree. */
  lemma RenderSpanned(c: Code, env: Env, ctx: Value, tree: Tree)
    requires Renderable(c) && Spans(c, 0, tree) && Size(tree) == |c.ops| && ReuseHarmless(tree)
    ensures Render(c, env, ctx) == Then(RenderTree(tree, env, ctx, AsWritten), Done(Tail(c)))
  {
    WalkIsTree(c, env, ctx, 0, tree, "");
    assert Walk(c, env, ctx, |c.ops|, "") == At(Tail(c), |c.texts|);
    hide Walk, RenderTree;
  }

  /** Theorem: the flat renderer prints, or fails, exactly as the tree interpreter does. */
  lemma RenderIsTree(c: Code, env: Env, ctx: Value)
    requires Renderable(c) && Balanced(c) && ReuseHarmless(TreeOf(c))
    ensures Render(c, env, ctx) == Then(RenderTree(TreeOf(c), env, ctx, AsWritten), Done(Tail(c)))
  {
    RenderSpanned(c, env, ctx, TreeOf(c));
  }

  function ListLookup(ctx: Value, name: string): Lookup {
    Found(if ctx == ROOT then Array([Null]) else Bool(true))
  }

  /** The compilation of `{{#a}}{{a}}x{{/a}}`, whose body reuses the name of the section. */
  const REUSING: Code :=
    Code(["", "", "x"], [Op(OpenBlock, "a", 0), Op(Tag, "a", 0), Op(CloseBlock, "a", 0)])

  const REUSING_TREE: Tree := Node("", "a", Section(Node("", "a", Leaf(Tag), End), "x"), End)

  lemma ReusedBody()
    ensures WalkTag(REUSING, Env(ListLookup, RootPartial), ROOT, 0) == At("", 1)
  {
    var c, env := REUSING, Env(ListLookup, RootPartial);
    assert Walk(c, env, Null, 1, "a") == At("", 1);
    assert WalkEach(c, env, [], 0, 1) == At("", 1);
  }

  /** Without the hypothesis on names the equivalence fails: the inner tag ends the section... */
  lemma ReuseStopsEarly()
    ensures Renderable(REUSING) && Render(REUSING, Env(ListLookup, RootPartial), ROOT) == Done("x")
  {
    hide Walk, WalkTag, WalkEach, RenderLeaf;
    var c, env := REUSING, Env(ListLookup, RootPartial);
    ReusedBody();
    WalkOverClose(c, env, ROOT, 2, "x", "a", "");
    WalkPastEnd(c, env, ROOT, 3, "");
    WalkEnters(c, env, ROOT, 0, "");
  }

  lemma WalkPastEnd(c: Code, env: Env, ctx: Value, i: nat, stop: string)
    requires Renderable(c) && i >= |c.texts|
    ensures Walk(c, env, ctx, i, stop) == At("", i)
  {
  }

  /** ... while its tree prints the tag and the fragment after it. */
  lemma ReuseTree()
    ensures Balanced(REUSING) && Spans(REUSING, 0, REUSING_TREE)
    ensures RenderTree(REUSING_TREE, Env(ListLookup, RootPartial), ROOT, AsWritten) == Done("truex")
  {
    var c, env := REUSING, Env(ListLookup, RootPartial);
    assert OpenBlocks(c, 1) == Within(0, Closed);
    assert OpenBlocks(c, 2) == Within(0, Closed);
    assert RenderTree(REUSING_TREE.item.kids, env, Null, AsWritten) == Done("true");
    assert RenderEach(REUSING_TREE.item.kids, "x", env, [], AsWritten) == Done("");
  }

  // ----- Sections whose value is neither empty nor an array -----

  /** Every section met in this run has an empty value or an array. */
  predicate OnlyLists(tree: Tree, env: Env, ctx: Value)
    decreases tree
  {
    match tree
    case End => true
    case Node(_, name, item, rest) =>
      var val := env.lookup(ctx, name);
      && OnlyLists(rest, env, ctx)
      && (item.Section? && !val.NotAnObject? && !IsEmpty(val) ==>
            && val.value.Array?
            && forall i :: 0 <= i < |val.value.elements| ==> OnlyLists(item.kids, env, val.value.elements[i]))
  }

  /** As long as sections meet empty values and arrays only, the code does what is intended. */
  lemma {:induction false} ListsAsIntended(tree: Tree, env: Env, ctx: Value)
    requires OnlyLists(tree, env, ctx)
    ensures RenderTree(tree, env, ctx, AsWritten) == RenderTree(tree, env, ctx, AsIntended)
    decreases tree, 0
  {
    if tree.Node? {
      ListsAsIntended(tree.rest, env, ctx);
      var val := env.lookup(ctx, tree.name);
      if tree.item.Section? && !val.NotAnObject? && !IsEmpty(val) {
        EachAsIntended(tree.item.kids, tree.item.closing, env, val.value.elements);
      }
    }
  }

  lemma {:induction false} EachAsIntended(kids: Tree, closing: string, env: Env, es: seq<Value>)
    requires forall i :: 0 <= i < |es| ==> OnlyLists(kids, env, es[i])
    ensures RenderEach(kids, closing, env, es, AsWritten) == RenderEach(kids, closing, env, es, AsIntended)
    decreases kids, 1, |es|
  {
    if es != [] {
      ListsAsIntended(kids, env, es[0]);
      EachAsIntended(kids, closing, env, es[1..]);
    }
  }

  predicate OnlyComments(tree: Tree) {
    tree.Node? ==> tree.item == Leaf(Ignore) && OnlyComments(tree.rest)
  }

  /** No fragment stands before a section's opening tag, and no tag but comments inside it. */
  predicate OnceSafe(tree: Tree) {
    tree.Node? ==>
      && (tree.item.Section? ==> tree.text == "" && OnlyComments(tree.item.kids))
      && OnceSafe(tree.rest)
  }

  predicate WellTagged(tree: Tree) {
    tree.Node? ==>
      && (tree.item.Leaf? ==> IsLeafTag(tree.item.tag))
      && (tree.item.Section? ==> WellTagged(tree.item.kids))
      && WellTagged(tree.rest)
  }

  /** A root context in which every name is a number, and every other context is not an object. */
  const ROOT: Value := Object([])

  function RootLookup(ctx: Value, name: string): Lookup {
    if ctx == ROOT then Found(Number("1")) else NotAnObject
  }

  function RootPartial(name: string, ctx: Value): Run {
    Done(if ctx == ROOT then "1" else "")
  }

  const PROBE: Env := Env(RootLookup, RootPartial)

  /** Comments alone print the same in every context. */
  lemma {:induction false} CommentsIgnoreContext(tree: Tree, env: Env, ctx: Value, other: Value)
    requires OnlyComments(tree)
    ensures RenderTree(tree, env, ctx, AsWritten) == RenderTree(tree, env, other, AsIntended)
  {
    if tree.Node? { CommentsIgnoreContext(tree.rest, env, ctx, other); }
  }

  lemma {:induction false} SafeAsIntended(tree: Tree, env: Env, ctx: Value)
    requires OnceSafe(tree)
    ensures RenderTree(tree, env, ctx, AsWritten) == RenderTree(tree, env, ctx, AsIntended)
  {
    if tree.Node? {
      SafeAsIntended(tree.rest, env, ctx);
      if tree.item.Section? {
        var val := env.lookup(ctx, tree.name);
        if val.Found? && !val.value.Array? {
          CommentsIgnoreContext(tree.item.kids, env, ctx, val.value);
          var run := Then(RenderTree(tree.item.kids, env, ctx, AsWritten), Done(tree.item.closing));
          assert "" + run.out == run.out;
        }
        if val.Found? && val.value.Array? {
          CommentsEach(tree.item.kids, tree.item.closing, env, val.value.elements);
        }
      }
    }
  }

  lemma {:induction false} CommentsEach(kids: Tree, closing: string, env: Env, es: seq<Value>)
    requires OnlyComments(kids)
    ensures RenderEach(kids, closing, env, es, AsWritten) == RenderEach(kids, closing, env, es, AsIntended)
    decreases |es|
  {
    if es != [] {
      CommentsIgnoreContext(kids, env, es[0], es[0]);
      CommentsEach(kids, closing, env, es[1..]);
    }
  }

  /** Run as written in the probe context, every tree prints; run inside a number, a tree fails or
      prints less, unless it holds comments only. */
  lemma {:induction false} ProbeInside(tree: Tree)
    requires WellTagged(tree)
    ensures var w := RenderTree(tree, PROBE, ROOT, AsWritten);
            var j := RenderTree(tree, PROBE, Number("1"), AsIntended);
            && w.Done?
            && (j.Threw? || if OnlyComments(tree) then |j.out| <= |w.out| else |j.out| < |w.out|)
  {
    if tree.Node? {
      ProbeInside(tree.rest);
      if tree.item.Section? { ProbeInside(tree.item.kids); }
      ProbeItem(tree.text, tree.name, tree.item);
      hide RenderItem, RenderLeaf;
    }
  }

  lemma ProbeItem(text: string, name: string, item: Item)
    requires item.Leaf? ==> IsLeafTag(item.tag)
    requires item.Section? ==> RenderTree(item.kids, PROBE, ROOT, AsWritten).Done?
    ensures RenderItem(text, name, item, PROBE, ROOT, AsWritten).Done?
    ensures var j := RenderItem(text, name, item, PROBE, Number("1"), AsIntended);
            j.Threw? || (j.out == "" &&
              (item == Leaf(Ignore) || |j.out| < |RenderItem(text, name, item, PROBE, ROOT, AsWritten).out|))
  {
    hide RenderTree;
  }

  /** In the probe context a template that is not safe fails or prints less than the code does. */
  lemma {:induction false} ProbeDiffers(tree: Tree)
    requires WellTagged(tree)
    ensures var w := RenderTree(tree, PROBE, ROOT, AsWritten);
            var j := RenderTree(tree, PROBE, ROOT, AsIntended);
            && w.Done?
            && (j.Threw? || if OnceSafe(tree) then |j.out| <= |w.out| else |j.out| < |w.out|)
  {
    ProbeInside(tree);
    if tree.Node? {
      ProbeDiffers(tree.rest);
      if tree.item.Section? { ProbeInside(tree.item.kids); }
      ProbeItem(tree.text, tree.name, tree.item);
    }
  }

  /** Exactly the templates that print as intended in every context and under every lookup. */
  lemma AsIntendedIffSafe(tree: Tree)
    requires WellTagged(tree)
    ensures (forall env: Env, ctx: Value ::
              RenderTree(tree, env, ctx, AsWritten) == RenderTree(tree, env, ctx, AsIntended))
            <==> OnceSafe(tree)
  {
    if OnceSafe(tree) {
      forall env: Env, ctx: Value
        ensures RenderTree(tree, env, ctx, AsWritten) == RenderTree(tree, env, ctx, AsIntended)
      {
        SafeAsIntended(tree, env, ctx);
      }
    } else {
      ProbeDiffers(tree);
      assert RenderTree(tree, PROBE, ROOT, AsWritten) != RenderTree(tree, PROBE, ROOT, AsIntended);
    }
  }
}
