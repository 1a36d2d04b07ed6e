/**
 Compiled Mustache templates: two parallel arrays, fragments and actions, that index
 into the template text, together with the tree that a balanced action list stands for.
 */
module MustacheTemplate {

  datatype ActionType = Ignore | Tag | UnEscapeTag | OpenBlock | CloseBlock | ElseBlock | Partial

  /** `first..last` delimits the tag name in the body; `pos` is the opener of a CloseBlock. */
  datatype Action = Action(tag: ActionType, first: nat, last: nat, pos: nat)

  datatype Fragment = Fragment(first: nat, second: nat)

  datatype Template = Template(body: string, actions: seq<Action>, fragments: seq<Fragment>)

  predicate InBounds(t: Template) {
    && (forall i :: 0 <= i < |t.actions| ==> t.actions[i].first < t.actions[i].last <= |t.body|)
    && (forall i :: 0 <= i < |t.fragments| ==> t.fragments[i].first <= t.fragments[i].second <= |t.body|)
  }

  function FragmentText(t: Template, f: Fragment): string
    requires f.first <= f.second <= |t.body|
  {
    t.body[f.first..f.second]
  }

  function TagName(t: Template, a: Action): string
    requires a.first <= a.last <= |t.body|
  {
    t.body[a.first..a.last]
  }

  /** An action with its name spelled out. */
  datatype Op = Op(tag: ActionType, name: string, pos: nat)

  /** A template with the two arrays resolved against the body. */
  datatype Code = Code(texts: seq<string>, ops: seq<Op>)

  function CodeOf(t: Template): (c: Code)
    requires InBounds(t)
    ensures |c.texts| == |t.fragments| && |c.ops| == |t.actions|
  {
    Code(seq(|t.fragments|, i requires 0 <= i < |t.fragments| => FragmentText(t, t.fragments[i])),
         seq(|t.actions|, i requires 0 <= i < |t.actions| =>
           Op(t.actions[i].tag, TagName(t, t.actions[i]), t.actions[i].pos)))
  }

  /** The part of a string that `strncmp` looks at. */
  function UpToNul(s: string): string {
    if s == "" || s[0] == '\0' then "" else [s[0]] + UpToNul(s[1..])
  }

  /** Equality of names as the string class decides it: same length, and equal up to a NUL. */
  predicate SameName(a: string, b: string) {
    |a| == |b| && UpToNul(a) == UpToNul(b)
  }

  lemma {:induction false} NulIsEnd(s: string)
    ensures var u := UpToNul(s); u <= s && '\0' !in u && (|u| < |s| ==> s[|u|] == '\0')
  {
    if s != "" && s[0] != '\0' { NulIsEnd(s[1..]); }
  }

  lemma {:induction false} CutAtNul(s: string, n: nat)
    requires n <= |s| && (n < |s| ==> s[n] == '\0')
    ensures UpToNul(s) == UpToNul(s[..n])
  {
    if n == |s| {
      assert s[..n] == s;
    } else if n > 0 {
      assert s[..n][1..] == s[1..][..n - 1];
      if s[0] != '\0' { CutAtNul(s[1..], n - 1); }
    }
  }

  /** Names are the same if they are as long as each other, and equal or equal up to a NUL in the same place. */
  lemma SameNameIs(a: string, b: string)
    ensures SameName(a, b) <==>
              |a| == |b| && exists n: nat :: n <= |a| && a[..n] == b[..n] && (n < |a| ==> a[n] == b[n] == '\0')
  {
    NulIsEnd(a);
    NulIsEnd(b);
    hide UpToNul;
    if SameName(a, b) {
      var n := |UpToNul(a)|;
      assert a[..n] == b[..n];
    }
    if n: nat :| |a| == |b| && n <= |a| && a[..n] == b[..n] && (n < |a| ==> a[n] == b[n] == '\0') {
      CutAtNul(a, n);
      CutAtNul(b, n);
    }
  }

  /** An ElseBlock is followed by a CloseBlock. */
  predicate ElseIsClosed(c: Code, i: nat) {
    i < |c.ops| && c.ops[i].tag == ElseBlock ==> i + 1 < |c.ops| && c.ops[i + 1].tag == CloseBlock
  }

  /** What the renderer relies on: parallel arrays, names that are not empty, and a CloseBlock
      after every ElseBlock. */
  predicate Renderable(c: Code) {
    && |c.ops| <= |c.texts| <= |c.ops| + 1
    && (forall i :: 0 <= i < |c.ops| ==> c.ops[i].name != "")
    && (forall i: nat :: i < |c.ops| ==> ElseIsClosed(c, i))
  }

  // ----- Balanced action lists -----

  /** The blocks that are open at some point, innermost first. */
  datatype Blocks = Closed | Within(opener: nat, outer: Blocks) | Mismatch

  /** The open blocks after action `n`, given those before it. A CloseBlock must match the
      innermost open block by position and by name. */
  function Advance(c: Code, open: Blocks, n: nat): Blocks
    requires n < |c.ops|
  {
    var a := c.ops[n];
    if a.tag == OpenBlock || a.tag == ElseBlock then Within(n, open)
    else if a.tag != CloseBlock then open
    else if open.Within? && a.pos == open.opener < n && c.ops[open.opener].name == a.name then open.outer
    else Mismatch
  }

  /** The open blocks after the first `n` actions. */
  function OpenBlocks(c: Code, n: nat): Blocks
    requires n <= |c.ops|
  {
    if n == 0 then Closed else
      var before := OpenBlocks(c, n - 1);
      if before.Mismatch? then Mismatch else Advance(c, before, n - 1)
  }

  predicate Balanced(c: Code) {
    OpenBlocks(c, |c.ops|) == Closed
  }

  lemma {:induction false} MatchedBefore(c: Code, m: nat, n: nat)
    requires m <= n <= |c.ops| && !OpenBlocks(c, n).Mismatch?
    ensures !OpenBlocks(c, m).Mismatch?
    decreases n - m
  {
    if m < n { MatchedBefore(c, m, n - 1); }
  }

  // ----- Trees -----

  /** A run of template items: each is the fragment before a tag, the tag's name, and the item. */
  datatype Tree = End | Node(text: string, name: string, item: Item, rest: Tree)

  /** A lone tag, an inverted section with its only fragment, or a section with its content and the
      fragment before its closing tag. */
  datatype Item = Leaf(tag: ActionType) | Inverted(inner: string) | Section(kids: Tree, closing: string)

  /** Number of actions a tree is compiled to. */
  function Size(tree: Tree): nat {
    match tree
    case End => 0
    case Node(_, _, item, rest) => ItemSize(item) + Size(rest)
  }

  function ItemSize(item: Item): (n: nat)
    ensures n > 0
  {
    match item
    case Leaf(_) => 1
    case Inverted(_) => 2
    case Section(kids, _) => 2 + Size(kids)
  }

  predicate IsLeafTag(tag: ActionType) {
    tag == Ignore || tag == Tag || tag == UnEscapeTag || tag == Partial
  }

  /** Cell `i` is a tag of kind `tag` called `name`, after the fragment `text`. */
  predicate Cell(c: Code, i: nat, text: string, tag: ActionType, name: string) {
    i < |c.ops| && i < |c.texts| && c.ops[i].tag == tag && c.texts[i] == text && c.ops[i].name == name
  }

  /** Cells `i`, `i + 1`, ... are exactly the tree. */
  predicate Spans(c: Code, i: nat, tree: Tree)
    decreases tree
  {
    match tree
    case End => true
    case Node(text, name, item, rest) =>
      SpansItem(c, i, text, name, item) && Spans(c, i + ItemSize(item), rest)
  }

  predicate SpansItem(c: Code, i: nat, text: string, name: string, item: Item)
    decreases item
  {
    match item
    case Leaf(tag) => IsLeafTag(tag) && Cell(c, i, text, tag, name)
    case Inverted(inner) => Cell(c, i, text, ElseBlock, name) && Cell(c, i + 1, inner, CloseBlock, name)
    case Section(kids, closing) =>
      && Cell(c, i, text, OpenBlock, name) && Spans(c, i + 1, kids)
      && Cell(c, i + 1 + Size(kids), closing, CloseBlock, name)
  }

  /** Some tag in the tree, at any depth and of any kind, bears the name. */
  predicate Bears(tree: Tree, name: string) {
    match tree
    case End => false
    case Node(_, n, item, rest) => SameName(n, name) || (item.Section? && Bears(item.kids, name)) || Bears(rest, name)
  }

  /** Comments only, and no text. */
  predicate Quiet(tree: Tree) {
    tree.Node? ==> tree.text == "" && tree.item == Leaf(Ignore) && Quiet(tree.rest)
  }

  /** The first tag that bears the name, at any depth, is a comment, and nothing comes after it. */
  predicate QuietAfter(tree: Tree, name: string) {
    match tree
    case End => true
    case Node(_, n, item, rest) =>
      if SameName(n, name) then item == Leaf(Ignore) && Quiet(rest)
      else if item.Section? && Bears(item.kids, name) then
        QuietAfter(item.kids, name) && item.closing == "" && Quiet(rest)
      else QuietAfter(rest, name)
  }

  /** A section that bears its own name inside does so only where nothing else is left of its body. */
  predicate Harmless(kids: Tree, closing: string, name: string) {
    QuietAfter(kids, name) && (Bears(kids, name) ==> closing == "")
  }

  predicate ReuseHarmless(tree: Tree) {
    match tree
    case End => true
    case Node(_, n, item, rest) =>
      && (item.Section? ==> Harmless(item.kids, item.closing, n) && ReuseHarmless(item.kids))
      && ReuseHarmless(rest)
  }

  /** No section contains a tag that bears the section's own name. */
  predicate NoReuse(tree: Tree) {
    match tree
    case End => true
    case Node(_, n, item, rest) =>
      && (item.Section? ==> !Bears(item.kids, n) && NoReuse(item.kids))
      && NoReuse(rest)
  }

  lemma {:induction false} NotBorneIsQuiet(tree: Tree, name: string)
    requires !Bears(tree, name)
    ensures QuietAfter(tree, name)
  {
    if tree.Node? { NotBorneIsQuiet(tree.rest, name); }
  }

  lemma {:induction false} NoReuseIsHarmless(tree: Tree)
    requires NoReuse(tree)
    ensures ReuseHarmless(tree)
  {
    if tree.Node? {
      NoReuseIsHarmless(tree.rest);
      if tree.item.Section? {
        NoReuseIsHarmless(tree.item.kids);
        NotBorneIsQuiet(tree.item.kids, tree.name);
      }
    }
  }

  /** What a block opened at `i` and closed at `k` looks like from outside. */
  lemma BlockStep(c: Code, i: nat, k: nat)
    requires Renderable(c) && Balanced(c) && i < k < |c.ops|
    requires c.ops[i].tag == OpenBlock || c.ops[i].tag == ElseBlock
    requires c.ops[k].tag == CloseBlock && OpenBlocks(c, k) == OpenBlocks(c, i + 1)
    ensures OpenBlocks(c, k + 1) == OpenBlocks(c, i)
    ensures c.ops[k].pos == i && c.ops[i].name == c.ops[k].name
  {
    MatchedBefore(c, i, |c.ops|);
    MatchedBefore(c, k + 1, |c.ops|);
    assert OpenBlocks(c, i + 1) == Within(i, OpenBlocks(c, i));
  }

  lemma LeafStep(c: Code, i: nat)
    requires Renderable(c) && Balanced(c) && i < |c.ops| && IsLeafTag(c.ops[i].tag)
    ensures OpenBlocks(c, i + 1) == OpenBlocks(c, i)
  {
    MatchedBefore(c, i, |c.ops|);
  }

  lemma NotClosedInside(c: Code, i: nat)
    requires Renderable(c) && Balanced(c) && i < |c.ops|
    requires c.ops[i].tag == OpenBlock || c.ops[i].tag == ElseBlock
    ensures OpenBlocks(c, i + 1) != OpenBlocks(c, |c.ops|)
  {
    MatchedBefore(c, i, |c.ops|);
  }

  /** From any cell of a balanced list, read items up to the end of the enclosing block. */
  lemma {:induction false} TreeFrom(c: Code, i: nat) returns (tree: Tree, j: nat)
    requires Renderable(c) && Balanced(c) && i <= |c.ops|
    ensures Spans(c, i, tree) && j == i + Size(tree) <= |c.ops|
    ensures j < |c.ops| ==> c.ops[j].tag == CloseBlock
    ensures OpenBlocks(c, j) == OpenBlocks(c, i)
    decreases |c.ops| - i, 1
  {
    if i == |c.ops| || c.ops[i].tag == CloseBlock {
      tree, j := End, i;
    } else {
      var item, k := ItemFrom(c, i);
      var rest;
      rest, j := TreeFrom(c, k);
      tree := Node(c.texts[i], c.ops[i].name, item, rest);
    }
  }

  lemma {:induction false} ItemFrom(c: Code, i: nat) returns (item: Item, j: nat)
    requires Renderable(c) && Balanced(c) && i < |c.ops| && c.ops[i].tag != CloseBlock
    ensures SpansItem(c, i, c.texts[i], c.ops[i].name, item) && j == i + ItemSize(item) <= |c.ops|
    ensures OpenBlocks(c, j) == OpenBlocks(c, i)
    decreases |c.ops| - i, 0
  {
    if c.ops[i].tag == ElseBlock {
      assert ElseIsClosed(c, i);
      BlockStep(c, i, i + 1);
      item, j := Inverted(c.texts[i + 1]), i + 2;
    } else if c.ops[i].tag == OpenBlock {
      var kids, k := TreeFrom(c, i + 1);
      NotClosedInside(c, i);
      BlockStep(c, i, k);
      item, j := Section(kids, c.texts[k]), k + 1;
    } else {
      LeafStep(c, i);
      item, j := Leaf(c.ops[i].tag), i + 1;
    }
  }

  /** A balanced action list is the compilation of a tree, with nothing left over. */
  lemma BalancedIsTree(c: Code)
    requires Renderable(c) && Balanced(c)
    ensures exists tree :: Spans(c, 0, tree) && Size(tree) == |c.ops|
  {
    var tree, j := TreeFrom(c, 0);
    if j < |c.ops| {
      MatchedBefore(c, j + 1, |c.ops|);
      assert false;
    }
  }

  /** The tree of a whole template. */
  ghost function TreeOf(c: Code): (tree: Tree)
    requires Renderable(c) && Balanced(c)
    ensures Spans(c, 0, tree) && Size(tree) == |c.ops|
  {
    BalancedIsTree(c);
    var tree :| Spans(c, 0, tree) && Size(tree) == |c.ops|;
    tree
  }

  /** Every closing tag of a balanced list points back to an opener of the same name, and closing
      it leads back to the blocks that were open before the opener. */
  lemma CloseMatchesOpener(c: Code, k: nat)
    requires Balanced(c) && k < |c.ops| && c.ops[k].tag == CloseBlock
    ensures var i := c.ops[k].pos;
            && i < k && (c.ops[i].tag == OpenBlock || c.ops[i].tag == ElseBlock)
            && c.ops[i].name == c.ops[k].name
            && OpenBlocks(c, k) == Within(i, OpenBlocks(c, i)) && OpenBlocks(c, k + 1) == OpenBlocks(c, i)
  {
    hide OpenBlocks, Encloses;
    MatchedBefore(c, k + 1, |c.ops|);
    MatchedBefore(c, k, |c.ops|);
    Advances(c, k);
    EnclosesAll(OpenBlocks(c, k));
    OpenersAreReal(c, k, OpenBlocks(c, k));
  }

  lemma Advances(c: Code, k: nat)
    requires k < |c.ops| && !OpenBlocks(c, k).Mismatch?
    ensures OpenBlocks(c, k + 1) == Advance(c, OpenBlocks(c, k), k)
  {
  }

  lemma EnclosesAll(all: Blocks)
    ensures Encloses(all, all)
  {
  }

  /** `part` is `all`, or what remains of it after closing some of its blocks. */
  predicate Encloses(part: Blocks, all: Blocks) {
    part == all || (all.Within? && Encloses(part, all.outer))
  }

  /** An open block was opened by an OpenBlock or ElseBlock, inside the blocks that enclose it. */
  lemma {:induction false} OpenersAreReal(c: Code, n: nat, part: Blocks)
    requires n <= |c.ops| && !OpenBlocks(c, n).Mismatch?
    requires part.Within? && Encloses(part, OpenBlocks(c, n))
    ensures var i := part.opener;
            && i < n && (c.ops[i].tag == OpenBlock || c.ops[i].tag == ElseBlock)
            && OpenBlocks(c, i) == part.outer
  {
    var before := OpenBlocks(c, n - 1);
    var tag := c.ops[n - 1].tag;
    if !((tag == OpenBlock || tag == ElseBlock) && part == OpenBlocks(c, n)) {
      OpenersAreReal(c, n - 1, part);
    }
  }
}
