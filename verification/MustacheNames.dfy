/**
 Which names a tag may have, over the characters themselves: letters, digits and an underscore, and in
 partials also a slash and a dot.
 */
module MustacheNames {
  import opened MustacheTemplate
  import opened MustacheParser
  import opened MustacheGrammar
  import opened MustacheSource

  predicate MayStart(ch: char) { ch in LOWER || ch in UPPER || ch == '_' }

  predicate MayFollow(ch: char, tag: ActionType) {
    MayStart(ch) || ch in DIGITS || (tag == Partial && (ch == '/' || ch == '.'))
  }

  predicate IsName(name: string, tag: ActionType) {
    name != "" && MayStart(name[0]) && forall i :: 0 <= i < |name| ==> MayFollow(name[i], tag)
  }

  /** A visible ASCII character. */
  predicate Visible(ch: char) { '!' <= ch <= '~' }

  lemma NamesAreValid(name: string, tag: ActionType)
    requires IsName(name, tag) && tag != Ignore
    ensures ValidName(tag, name)
  {
    assert NameStart(name[0]);
    forall i | 0 <= i < |name| ensures NamePart(name[i], tag) { assert MayFollow(name[i], tag); }
  }

  // ----- Names that are accepted -----

  /** Theorem: a tag with such a name compiles to one action of its kind with that name. */
  lemma NameCompiles(name: string, tag: ActionType)
    requires IsName(name, tag) && (tag == Tag || tag == UnEscapeTag || tag == Partial)
    ensures var p := Parse("{{" + Sigil(tag) + name + "}}");
            && p.Accepted? && InBounds(p.value) && |p.value.actions| == |p.value.fragments| == 1
            && p.value.actions[0].tag == tag && TagName(p.value, p.value.actions[0]) == name
  {
    hide IsName, ValidName, Parse, Spell, Sigil;
    NamesAreValid(name, tag);
    var end := MustacheGrammar.Tail("");
    var src := Chunk("", Canonical(tag, name), end);
    CanonicalChunk("", tag, name, end);
    assert Spell(src) == "{{" + Sigil(tag) + name + "}}" by { SpellTail(""); }
    LeafFits("", tag, name, end, []);
    CompilesSource(src);
    ReadCell(Parse(Spell(src)).value, tag, name);
  }

  lemma ReadCell(t: Template, tag: ActionType, name: string)
    requires InBounds(t) && Compiles(CodeOf(t), 0, Chunk("", Canonical(tag, name), MustacheGrammar.Tail("")))
    ensures |t.actions| == |t.fragments| == 1 && t.actions[0].tag == tag && TagName(t, t.actions[0]) == name
  {
    var c := CodeOf(t);
    assert Compiles(c, 1, MustacheGrammar.Tail(""));
    assert c.texts[1..] == [];
  }

  /** Theorem: a section with such a name compiles to its two tags. */
  lemma SectionCompiles(name: string, tag: ActionType)
    requires IsName(name, tag) && (tag == OpenBlock || tag == ElseBlock)
    ensures var p := Parse("{{" + Sigil(tag) + name + "}}" + ("{{/" + name + "}}"));
            && p.Accepted? && InBounds(p.value) && |p.value.actions| == 2
            && p.value.actions[0].tag == tag && p.value.actions[1].tag == CloseBlock && p.value.actions[1].pos == 0
            && TagName(p.value, p.value.actions[0]) == TagName(p.value, p.value.actions[1]) == name
  {
    hide IsName, ValidName, Parse, Printable, Spans, Unparse, Sigil, CodeOf, InBounds, Interleaved, Renderable;
    hide Balanced;
    NamesAreValid(name, tag);
    SameNames(tag, name);
    var tree := EmptySection(name, tag);
    SectionText(name, tag);
    CompileInvertsPrint(tree, "");
    AcceptedIsWellFormed(Unparse(tree) + "");
    SectionCells(Parse(Unparse(tree) + "").value, name, tag);
  }

  /** A section, or inverted section, without content. */
  function EmptySection(name: string, tag: ActionType): Tree {
    Node("", name, if tag == OpenBlock then Section(End, "") else Inverted(""), End)
  }

  lemma SectionText(name: string, tag: ActionType)
    requires (tag == OpenBlock || tag == ElseBlock) && ValidName(OpenBlock, name)
    ensures var tree := EmptySection(name, tag);
            Printable(tree) && Unparse(tree) + "" == "{{" + Sigil(tag) + name + "}}" + ("{{/" + name + "}}")
  {
    hide ValidName;
    var open, close := TagText(tag, name), TagText(CloseBlock, name);
    assert close == "{{/" + name + "}}";
    assert Unparse(End) == "" && Printable(End);
    assert "" + open == open && "" + close == close && open + close + "" == open + close && "" + close == close;
  }

  lemma SectionCells(t: Template, name: string, tag: ActionType)
    requires tag == OpenBlock || tag == ElseBlock
    requires InBounds(t) && Spans(CodeOf(t), 0, EmptySection(name, tag)) && Balanced(CodeOf(t))
    requires |t.actions| == Size(EmptySection(name, tag))
    ensures |t.actions| == 2 && t.actions[0].tag == tag && t.actions[1].tag == CloseBlock && t.actions[1].pos == 0
    ensures TagName(t, t.actions[0]) == TagName(t, t.actions[1]) == name
  {
    hide Balanced;
    var c := CodeOf(t);
    assert Cell(c, 0, "", tag, name) && Cell(c, 1, "", CloseBlock, name);
    hide Cell, Spans;
    CloseMatchesOpener(c, 1);
  }

  // ----- Names that are rejected -----

  /** Where the character `ch` stands in or before a name and may not, the name is not read. */
  lemma BadCharacter(s: string, p: nat, name: string, ch: char, tag: ActionType)
    requires Holds(s, p, name + [ch]) && Visible(ch) && tag != Ignore
    requires if name == "" then !MayStart(ch) else IsName(name, tag) && !MayFollow(ch, tag) && ch != '}'
    ensures p < |s| && ReadName(s, p, Extra(tag)).BadName?
  {
    hide Holds, IsSpace, IsNameStart, IsNameChar, SkipSpace, SkipName;
    var last := p + |name|;
    HoldsSplit(s, p, name, [ch]);
    HoldsAt(s, last, [ch], 0);
    NotAllowed(ch, tag);
    if name == "" {
      assert SkipSpace(s, p) == p by { SkippedNone(s, p); }
    } else {
      NamesAreValid(name, tag);
      HoldsAt(s, p, name, 0);
      Classes(s[p]);
      SkippedNone(s, p);
      HoldsTail(s, p, name);
      SkipNameTo(s, p + 1, name[1..], Extra(tag));
      SkippedNone(s, last);
    }
  }

  lemma NotAllowed(ch: char, tag: ActionType)
    requires Visible(ch)
    ensures !IsSpace(ch) && ch != '\0' && (IsNameStart(ch) <==> MayStart(ch))
    ensures IsNameChar(ch, Extra(tag)) <==> MayFollow(ch, tag)
  {
    assert NameStart(ch) == IsNameStart(ch) && NamePart(ch, tag) == IsNameChar(ch, Extra(tag));
    hide IsNameChar, IsNameStart;
  }

  /** Theorem: a tag with a visible character that its name may not have is rejected, whatever follows. */
  lemma NameRejected(text: string, tag: ActionType, name: string, ch: char, rest: string)
    requires PlainText(text) && Visible(ch) && tag != Ignore
    requires if name == "" then !MayStart(ch) && (tag == Tag ==> ch !in "#/^!>{&")
             else IsName(name, tag) && !MayFollow(ch, tag) && ch != '}'
    ensures Parse(text + ("{{" + (Sigil(tag) + (name + [ch] + rest)))).Rejected?
  {
    hide TagAtCursor, Inv, Scan, PlainText, Visible, MayStart, MayFollow, IsName, Sigil, Holds;
    var s := text + ("{{" + (Sigil(tag) + (name + [ch] + rest)));
    TagStands(s, |text|, text, Sigil(tag), name + [ch], rest);
    TagIsRejected(s, |text|, tag, name, ch);
    RejectedTag(s, text);
  }

  lemma RejectedTag(s: string, text: string)
    requires PlainText(text) && Holds(s, 0, text) && Holds(s, |text|, "{{")
    requires |text| + 2 <= |s| && TagAtCursor(s, START.(pos := |text|)).Rejected?
    ensures Parse(s).Rejected?
  {
    hide TagAtCursor, Inv, Scan, PlainText;
    StartInv(s);
    PlainBefore(s, 0, text);
    HoldsAt(s, |text|, "{{", 0);
    HoldsAt(s, |text|, "{{", 1);
    hide Holds;
    ScansText(s, START, |text|);
    ScanFails(s, START.(pos := |text|));
  }

  lemma TagStands(s: string, k: nat, text: string, sigil: string, bad: string, rest: string)
    requires s == text + ("{{" + (sigil + (bad + rest))) && k == |text|
    ensures Holds(s, 0, text) && Holds(s, k, "{{") && Holds(s, k + 2, sigil) && Holds(s, k + 2 + |sigil|, bad)
    ensures k + 2 <= |s|
  {
    assert Holds(s, 0, s);
    hide Holds;
    HoldsSplit(s, 0, text, "{{" + (sigil + (bad + rest)));
    HoldsSplit(s, k, "{{", sigil + (bad + rest));
    HoldsSplit(s, k + 2, sigil, bad + rest);
    HoldsSplit(s, k + 2 + |sigil|, bad, rest);
  }

  /** What a visible character announces behind the braces. */
  lemma Announces(s: string, p: nat, tag: ActionType, ch: char)
    requires p < |s| && s[p] == ch && tag != Ignore && Visible(ch)
    requires if tag == Tag then ch !in "#/^!>{&" else [ch] == Sigil(tag)
    ensures SkipSpace(s, p) == p && Announced(ch) == (tag, false)
  {
  }

  lemma TagIsRejected(s: string, k: nat, tag: ActionType, name: string, ch: char)
    requires Holds(s, k, "{{") && Holds(s, k + 2, Sigil(tag)) && Holds(s, k + 2 + |Sigil(tag)|, name + [ch])
    requires Visible(ch) && tag != Ignore
    requires if name == "" then !MayStart(ch) && (tag == Tag ==> ch !in "#/^!>{&")
             else IsName(name, tag) && !MayFollow(ch, tag) && ch != '}'
    ensures TagAtCursor(s, START.(pos := k)).Rejected?
  {
    hide Holds, MayFollow, IsName, ReadName, ReadTag, Announced, SkipSpace;
    var mid := START.(fragments := START.fragments + [Fragment(0, k)], pos := k + 2);
    var q := k + 2 + |Sigil(tag)|;
    BadCharacter(s, q, name, ch, tag);
    if tag == Tag {
      HoldsAt(s, q, name + [ch], 0);
      if name != "" { StartIsVisible(name, tag); }
    } else {
      HoldsAt(s, k + 2, Sigil(tag), 0);
    }
    Announces(s, k + 2, tag, s[k + 2]);
    Dispatches(s, mid);
    assert TagAtCursor(s, START.(pos := k)) == ReadTag(s, mid);
    assert q == if tag == Tag then k + 2 else k + 3;
  }

  lemma StartIsVisible(name: string, tag: ActionType)
    requires IsName(name, tag)
    ensures Visible(name[0]) && name[0] !in "#/^!>{&="
  {
    NamesStart(name[0]);
  }

  lemma NamesStart(ch: char)
    requires MayStart(ch)
    ensures Visible(ch) && ch !in "#/^!>{&="
  {
    hide MayStart;
    Starts(ch);
  }

  lemma Starts(ch: char)
    ensures MayStart(ch) <==> IsNameStart(ch)
  {
    hide IsNameStart;
    assert NameStart(ch) == IsNameStart(ch);
  }
}
