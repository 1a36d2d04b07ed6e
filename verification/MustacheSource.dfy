/**
 Template source text and trees. A text that spells a tree, however its tags are spaced, is compiled
 to exactly that tree, so compiling and rendering it is the same as interpreting the tree.
 */
module MustacheSource {
  import opened MustacheTemplate
  import opened MustacheParser
  import opened MustacheGrammar
  import MustacheRenderer

  // ----- Texts that spell a tree -----

  predicate Chunks(src: Source, text: string, tag: ActionType, name: string) {
    src.Chunk? && src.text == text && src.mark.tag == tag && src.mark.name == name
  }

  /** What follows the tree that `src` begins with, if it does. */
  function Behind(src: Source, tree: Tree): Result<Source>
    decreases tree
  {
    match tree
    case End => Accepted(src)
    case Node(text, name, item, rest) =>
      match BehindItem(src, text, name, item)
      case Rejected => Rejected
      case Accepted(more) => Behind(more, rest)
  }

  function BehindItem(src: Source, text: string, name: string, item: Item): Result<Source>
    decreases item
  {
    match item
    case Leaf(tag) => if IsLeafTag(tag) && Chunks(src, text, tag, name) then Accepted(src.rest) else Rejected
    case Inverted(inner) =>
      if Chunks(src, text, ElseBlock, name) && Chunks(src.rest, inner, CloseBlock, name)
      then Accepted(src.rest.rest) else Rejected
    case Section(kids, closing) =>
      if !Chunks(src, text, OpenBlock, name) then Rejected else
        match Behind(src.rest, kids)
        case Rejected => Rejected
        case Accepted(end) => if Chunks(end, closing, CloseBlock, name) then Accepted(end.rest) else Rejected
  }

  /** `src` spells the tree, and `tail` behind it. */
  predicate Spells(src: Source, tree: Tree, tail: string) { Behind(src, tree) == Accepted(Tail(tail)) }

  lemma {:induction false} BehindSpans(c: Code, i: nat, src: Source, tree: Tree)
    requires Compiles(c, i, src) && Behind(src, tree).Accepted?
    ensures Spans(c, i, tree) && Compiles(c, i + Size(tree), Behind(src, tree).value)
    decreases tree
  {
    if tree.Node? {
      ItemSpans(c, i, src, tree.text, tree.name, tree.item);
      BehindSpans(c, i + ItemSize(tree.item), BehindItem(src, tree.text, tree.name, tree.item).value, tree.rest);
    }
  }

  lemma {:induction false} ItemSpans(c: Code, i: nat, src: Source, text: string, name: string, item: Item)
    requires Compiles(c, i, src) && BehindItem(src, text, name, item).Accepted?
    ensures SpansItem(c, i, text, name, item)
    ensures Compiles(c, i + ItemSize(item), BehindItem(src, text, name, item).value)
    decreases item
  {
    if item.Section? { BehindSpans(c, i + 1, src.rest, item.kids); }
  }

  /** Theorem: a text that spells a tree is accepted and compiled to exactly that tree. */
  lemma CompilesTree(src: Source, tree: Tree, tail: string)
    requires IsSource(src) && Spells(src, tree, tail)
    ensures var p := Parse(Spell(src));
            && p.Accepted? && InBounds(p.value)
            && Spans(CodeOf(p.value), 0, tree) && |p.value.actions| == Size(tree)
            && MustacheRenderer.Tail(CodeOf(p.value)) == tail
  {
    hide Parse, IsSource, Spell, InBounds, Spans, Behind;
    CompilesSource(src);
    BehindSpans(CodeOf(Parse(Spell(src)).value), 0, src, tree);
  }

  /** Every list of cells that is the compilation of a tree was spelled as that tree. */
  lemma {:induction false} SpansBehind(c: Code, i: nat, src: Source, tree: Tree)
    requires Compiles(c, i, src) && Spans(c, i, tree)
    ensures Behind(src, tree).Accepted? && Compiles(c, i + Size(tree), Behind(src, tree).value)
    decreases tree
  {
    if tree.Node? {
      ItemBehind(c, i, src, tree.text, tree.name, tree.item);
      SpansBehind(c, i + ItemSize(tree.item), BehindItem(src, tree.text, tree.name, tree.item).value, tree.rest);
    }
  }

  lemma {:induction false} ItemBehind(c: Code, i: nat, src: Source, text: string, name: string, item: Item)
    requires Compiles(c, i, src) && SpansItem(c, i, text, name, item)
    ensures var r := BehindItem(src, text, name, item); r.Accepted? && Compiles(c, i + ItemSize(item), r.value)
    decreases item
  {
    if item.Section? { SpansBehind(c, i + 1, src.rest, item.kids); }
  }

  /** Theorem: every accepted text spells the tree it is compiled to. */
  lemma AcceptedSpellsTree(s: string) returns (src: Source, tree: Tree, tail: string)
    requires Parse(s).Accepted?
    ensures IsSource(src) && Spell(src) == s && Spells(src, tree, tail)
    ensures InBounds(Parse(s).value) && Spans(CodeOf(Parse(s).value), 0, tree) && |Parse(s).value.actions| == Size(tree)
  {
    hide Parse, IsSource, Spell, InBounds, Spans, Behind, Balanced, Renderable, Interleaved;
    src := SourceOf(s);
    CompilesSource(src);
    AcceptedIsWellFormed(s);
    var c := CodeOf(Parse(s).value);
    tree := TreeOf(c);
    SpansBehind(c, 0, src, tree);
    var end := Behind(src, tree).value;
    tail := if end.Tail? then end.text else "";
  }

  /** Theorem: compiling a text that spells a tree and rendering the result is interpreting the tree,
      for every tree that reuses the names of sections inside them harmlessly, if at all. */
  lemma RenderSource(src: Source, tree: Tree, tail: string, env: MustacheRenderer.Env, ctx: MustacheRenderer.Value)
    requires IsSource(src) && Spells(src, tree, tail) && ReuseHarmless(tree)
    ensures var p := Parse(Spell(src));
            && p.Accepted? && InBounds(p.value) && Renderable(CodeOf(p.value))
            && MustacheRenderer.Render(CodeOf(p.value), env, ctx)
               == MustacheRenderer.Then(MustacheRenderer.RenderTree(tree, env, ctx, MustacheRenderer.AsWritten),
                                        MustacheRenderer.Done(tail))
  {
    hide Spans, CodeOf, Parse, IsSource, Spells, ReuseHarmless, Renderable, Spell;
    CompilesTree(src, tree, tail);
    AcceptedIsWellFormed(Spell(src));
    MustacheRenderer.RenderSpanned(CodeOf(Parse(Spell(src)).value), env, ctx, tree);
  }

  // ----- Printing a tree -----

  function TagText(tag: ActionType, name: string): string {
    "{{" + Sigil(tag) + name + "}}"
  }

  function Unparse(tree: Tree): string
    decreases tree
  {
    match tree
    case End => ""
    case Node(text, name, item, rest) => UnparseItem(text, name, item) + Unparse(rest)
  }

  function UnparseItem(text: string, name: string, item: Item): string
    decreases item
  {
    match item
    case Leaf(tag) => text + TagText(tag, name)
    case Inverted(inner) => (text + TagText(ElseBlock, name)) + (inner + TagText(CloseBlock, name))
    case Section(kids, closing) =>
      (text + TagText(OpenBlock, name)) + (Unparse(kids) + (closing + TagText(CloseBlock, name)))
  }

  /** Trees that can be written down. */
  predicate Printable(tree: Tree)
    decreases tree
  {
    match tree
    case End => true
    case Node(text, name, item, rest) =>
      PlainText(text) && PrintableItem(name, item) && Printable(rest)
  }

  predicate PrintableItem(name: string, item: Item)
    decreases item
  {
    match item
    case Leaf(tag) => IsLeafTag(tag) && ValidName(tag, name)
    case Inverted(inner) => ValidName(OpenBlock, name) && PlainText(inner)
    case Section(kids, closing) => ValidName(OpenBlock, name) && Printable(kids) && PlainText(closing)
  }

  function Canonical(tag: ActionType, name: string): Mark {
    Mark(tag, false, "", "", name, if tag == Ignore then "}}" else "")
  }

  /** The tree in front of `k`, with tags as they are printed. */
  function Written(tree: Tree, k: Source): Source
    decreases tree
  {
    match tree
    case End => k
    case Node(text, name, item, rest) => WrittenItem(text, name, item, Written(rest, k))
  }

  function WrittenItem(text: string, name: string, item: Item, k: Source): Source
    decreases item
  {
    match item
    case Leaf(tag) => Chunk(text, Canonical(tag, name), k)
    case Inverted(inner) => Chunk(text, Canonical(ElseBlock, name), Chunk(inner, Canonical(CloseBlock, name), k))
    case Section(kids, closing) =>
      Chunk(text, Canonical(OpenBlock, name), Written(kids, Chunk(closing, Canonical(CloseBlock, name), k)))
  }

  /** What may stand in front of `k`: nothing that changes whether `k` is of the language. */
  predicate Fits(src: Source, k: Source, open: seq<string>) {
    && (ValidSource(k) ==> ValidSource(src)) && (Nests(k, open) ==> Nests(src, open))
    && (ElseIsEmpty(k) ==> ElseIsEmpty(src))
  }

  lemma {:induction false} WrittenIsSource(tree: Tree, k: Source, open: seq<string>)
    requires Printable(tree)
    ensures var src := Written(tree, k);
            Behind(src, tree) == Accepted(k) && Fits(src, k, open) && Spell(src) == Unparse(tree) + Spell(k)
    decreases tree
  {
    hide ValidSource, Nests, ElseIsEmpty, Spell, UnparseItem, WrittenItem, BehindItem, PlainText, PrintableItem;
    if tree.Node? {
      WrittenIsSource(tree.rest, k, open);
      ItemIsSource(tree.text, tree.name, tree.item, Written(tree.rest, k), open);
    }
  }

  lemma {:induction false} ItemIsSource(text: string, name: string, item: Item, k: Source, open: seq<string>)
    requires PlainText(text) && PrintableItem(name, item)
    ensures var src := WrittenItem(text, name, item, k);
            && BehindItem(src, text, name, item) == Accepted(k) && Fits(src, k, open)
            && Spell(src) == UnparseItem(text, name, item) + Spell(k)
    decreases item
  {
    hide Spell, PlainText, ValidName, ValidSource, Nests, ElseIsEmpty, TagText, Fits;
    match item
    case Leaf(tag) =>
      CanonicalChunk(text, tag, name, k);
      LeafFits(text, tag, name, k, open);
    case Inverted(inner) =>
      var end := Chunk(inner, Canonical(CloseBlock, name), k);
      CanonicalChunk(inner, CloseBlock, name, k);
      CanonicalChunk(text, ElseBlock, name, end);
      FitsItself(end, open + [name]);
      BlockFits(text, ElseBlock, name, inner, k, end, open);
    case Section(kids, closing) =>
      var end := Chunk(closing, Canonical(CloseBlock, name), k);
      CanonicalChunk(closing, CloseBlock, name, k);
      WrittenIsSource(kids, end, open + [name]);
      CanonicalChunk(text, OpenBlock, name, Written(kids, end));
      BlockFits(text, OpenBlock, name, closing, k, Written(kids, end), open);
  }

  lemma FitsItself(k: Source, open: seq<string>)
    ensures Fits(k, k, open)
  {
  }

  lemma CanonicalChunk(text: string, tag: ActionType, name: string, k: Source)
    ensures Spell(Chunk(text, Canonical(tag, name), k)) == (text + TagText(tag, name)) + Spell(k)
  {
    hide Sigil;
    var m := Canonical(tag, name);
    assert m.trail + Closer(m) == "}}";
    assert MarkText(m) == TagText(tag, name);
    assert Spell(Chunk(text, m, k)) == text + (MarkText(m) + Spell(k));
  }

  lemma CanonicalIsValid(text: string, tag: ActionType, name: string, k: Source)
    requires PlainText(text) && ValidName(tag, name) && ValidSource(k)
    ensures ValidSource(Chunk(text, Canonical(tag, name), k))
  {
    hide PlainText, ValidName;
  }

  lemma LeafFits(text: string, tag: ActionType, name: string, k: Source, open: seq<string>)
    requires PlainText(text) && IsLeafTag(tag) && ValidName(tag, name)
    ensures Fits(Chunk(text, Canonical(tag, name), k), k, open)
  {
    if ValidSource(k) { CanonicalIsValid(text, tag, name, k); }
    hide PlainText, ValidName, ValidSource;
  }

  /** A block, from its opening tag to its closing tag, whose content is `body` up to the latter. */
  lemma BlockFits(text: string, tag: ActionType, name: string, closing: string, k: Source, body: Source,
                  open: seq<string>)
    requires PlainText(text) && PlainText(closing) && ValidName(OpenBlock, name)
    requires tag == OpenBlock || (tag == ElseBlock && body.Chunk? && body.mark.tag == CloseBlock)
    requires Fits(body, Chunk(closing, Canonical(CloseBlock, name), k), open + [name])
    ensures Fits(Chunk(text, Canonical(tag, name), body), k, open)
  {
    var end := Chunk(closing, Canonical(CloseBlock, name), k);
    var within := open + [name];
    assert within[..|within| - 1] == open;
    assert Nests(k, open) ==> Nests(end, within);
    assert ElseIsEmpty(k) ==> ElseIsEmpty(end);
    SameNames(tag, name);
    if ValidSource(k) {
      CanonicalIsValid(closing, CloseBlock, name, k);
      CanonicalIsValid(text, tag, name, body);
    }
    hide PlainText, ValidName, ValidSource;
  }

  lemma SameNames(tag: ActionType, name: string)
    requires tag != Ignore && tag != Partial
    ensures ValidName(tag, name) <==> ValidName(OpenBlock, name)
    ensures ValidName(CloseBlock, name) <==> ValidName(OpenBlock, name)
  {
  }

  /** Theorem: the text of any printable tree is accepted and compiled to exactly that tree. */
  lemma CompileInvertsPrint(tree: Tree, tail: string)
    requires Printable(tree) && PlainTail(tail)
    ensures var p := Parse(Unparse(tree) + tail);
            && p.Accepted? && InBounds(p.value)
            && Spans(CodeOf(p.value), 0, tree) && |p.value.actions| == Size(tree)
            && MustacheRenderer.Tail(CodeOf(p.value)) == tail
  {
    hide Spans, CodeOf, Printable, Behind, Parse, InBounds;
    WrittenIsSource(tree, Tail(tail), []);
    CompilesTree(Written(tree, Tail(tail)), tree, tail);
  }

  /** Theorem: compiling the text of a tree and rendering the result is interpreting the tree. */
  lemma RenderPrinted(tree: Tree, tail: string, env: MustacheRenderer.Env, ctx: MustacheRenderer.Value)
    requires Printable(tree) && PlainTail(tail) && ReuseHarmless(tree)
    ensures var p := Parse(Unparse(tree) + tail);
            && p.Accepted? && InBounds(p.value) && Renderable(CodeOf(p.value))
            && MustacheRenderer.Render(CodeOf(p.value), env, ctx)
               == MustacheRenderer.Then(MustacheRenderer.RenderTree(tree, env, ctx, MustacheRenderer.AsWritten),
                                        MustacheRenderer.Done(tail))
  {
    hide Spans, CodeOf, Printable, Behind, Parse, InBounds, Renderable, ReuseHarmless;
    WrittenIsSource(tree, Tail(tail), []);
    RenderSource(Written(tree, Tail(tail)), tree, tail, env, ctx);
  }
}
