/**
 The language of templates: texts and tags in turn, with white space wherever the compiler skips
 it, blocks that nest, and inverted sections without tags. The compiler accepts exactly this
 language, and its arrays hold exactly the texts, tags and names that are written.
 */
module MustacheGrammar {
  import opened MustacheTemplate
  import opened MustacheParser

  function Sigil(tag: ActionType): string {
    match tag
    case Ignore => "!"
    case Tag => ""
    case UnEscapeTag => "&"
    case OpenBlock => "#"
    case CloseBlock => "/"
    case ElseBlock => "^"
    case Partial => ">"
  }

  /** A tag as it is written. `lead` stands before the sigil, `gap` and `trail` around the name; for
      a comment `trail` is what stands in place of the two closing braces. */
  datatype Mark = Mark(tag: ActionType, triple: bool, lead: string, gap: string, name: string, trail: string)

  function SigilOf(m: Mark): string { if m.triple then "{" else Sigil(m.tag) }

  function Closer(m: Mark): string {
    if m.tag == Ignore then "" else if m.triple then "}}}" else "}}"
  }

  function MarkText(m: Mark): string {
    "{{" + (m.lead + (SigilOf(m) + (m.gap + (m.name + (m.trail + Closer(m))))))
  }

  // ----- Characters, and the classes of the parser that they make up -----

  const LOWER: string := "abcdefghijklmnopqrstuvwxyz"
  const UPPER: string := "ABCDEFGHIJKLMNOPQRSTUVWXYZ"
  const DIGITS: string := "0123456789"

  predicate Space(ch: char): (r: bool)
    ensures r == IsSpace(ch)
  {
    ch in " \t\n\U{0B}\U{0C}\r"
  }

  predicate NameStart(ch: char): (r: bool)
    ensures r == IsNameStart(ch)
  {
    LowerCase(ch);
    UpperCase(ch);
    ch in LOWER || ch in UPPER || ch == '_'
  }

  lemma LowerCase(ch: char)
    ensures 'a' <= ch <= 'z' <==> ch in LOWER
  {
    if 'a' <= ch <= 'z' { assert LOWER[ch as int - 'a' as int] == ch; }
  }

  lemma UpperCase(ch: char)
    ensures 'A' <= ch <= 'Z' <==> ch in UPPER
  {
    if 'A' <= ch <= 'Z' { assert UPPER[ch as int - 'A' as int] == ch; }
  }

  lemma DecimalDigit(ch: char)
    ensures '0' <= ch <= '9' <==> ch in DIGITS
  {
    if '0' <= ch <= '9' { assert DIGITS[ch as int - '0' as int] == ch; }
  }

  /** A NUL passes for part of a name. */
  predicate NamePart(ch: char, tag: ActionType): (r: bool)
    ensures r == IsNameChar(ch, Extra(tag))
  {
    DecimalDigit(ch);
    NameStart(ch) || ch in DIGITS || (tag == Partial && ch in "/.") || ch == '\0'
  }

  predicate Blank(w: string) { forall i :: 0 <= i < |w| ==> Space(w[i]) }

  /** What the parser lets stand in a name beside letters and digits. */
  function Extra(tag: ActionType): string { if tag == Partial then "/._" else "_" }

  predicate ValidName(tag: ActionType, name: string) {
    if tag == Ignore then name != "" && '}' !in name
    else name != "" && NameStart(name[0]) && forall i :: 0 <= i < |name| ==> NamePart(name[i], tag)
  }

  /** A comment runs to the first closing brace and takes one more character, whatever it is; when
      the brace comes first, it is the comment and two more characters are taken. */
  predicate ValidMark(m: Mark) {
    && Blank(m.lead) && (m.triple ==> m.tag == UnEscapeTag)
    && if m.tag == Ignore then
         && m.gap == "" && |m.trail| <= 2
         && (m.name == "}" || (ValidName(Ignore, m.name) && m.trail != "" && m.trail[0] == '}'))
       else ValidName(m.tag, m.name) && Blank(m.gap) && Blank(m.trail) && (m.tag == Tag ==> m.gap == "")
  }

  /** Only at the end of the text may a comment want some of its last characters. */
  predicate Complete(m: Mark) { m.tag == Ignore ==> |m.trail| == 2 }

  /** No pair of opening braces starts inside the text. */
  predicate PlainTail(text: string) {
    forall i :: 0 <= i < |text| - 1 ==> !(text[i] == '{' && text[i + 1] == '{')
  }

  /** No pair of opening braces starts inside the text or on its last character. */
  predicate PlainText(text: string) { PlainTail(text) && (text != "" ==> text[|text| - 1] != '{') }

  datatype Source = Tail(text: string) | Chunk(text: string, mark: Mark, rest: Source)

  function Spell(src: Source): string {
    match src
    case Tail(text) => text
    case Chunk(text, mark, rest) => text + (MarkText(mark) + Spell(rest))
  }

  predicate ValidSource(src: Source) {
    match src
    case Tail(text) => PlainTail(text)
    case Chunk(text, mark, rest) =>
      PlainText(text) && ValidMark(mark) && (Complete(mark) || rest == Tail("")) && ValidSource(rest)
  }

  /** Every closing tag names the innermost open block; `open` holds the names, innermost last. */
  predicate Nests(src: Source, open: seq<string>) {
    match src
    case Tail(_) => open == []
    case Chunk(_, m, rest) =>
      if m.tag == OpenBlock || m.tag == ElseBlock then Nests(rest, open + [m.name])
      else if m.tag != CloseBlock then Nests(rest, open)
      else open != [] && open[|open| - 1] == m.name && Nests(rest, open[..|open| - 1])
  }

  /** The tag after an inverted section's opening tag closes it. */
  predicate ElseIsEmpty(src: Source) {
    src.Chunk? ==>
      && (src.mark.tag == ElseBlock && src.rest.Chunk? ==> src.rest.mark.tag == CloseBlock)
      && ElseIsEmpty(src.rest)
  }

  predicate IsSource(src: Source) { ValidSource(src) && Nests(src, []) && ElseIsEmpty(src) }

  ghost predicate IsTemplate(s: string) { exists src :: IsSource(src) && Spell(src) == s }

  /** From cell `i` on, `c` holds the texts, tags and names of `src`. */
  predicate Compiles(c: Code, i: nat, src: Source)
    decreases src
  {
    match src
    case Tail(text) => |c.ops| == i <= |c.texts| && c.texts[i..] == if text == "" then [] else [text]
    case Chunk(text, m, rest) => Cell(c, i, text, m.tag, m.name) && Compiles(c, i + 1, rest)
  }

  // ----- Text at a position -----

  predicate Holds(s: string, p: nat, w: string) {
    p + |w| <= |s| && s[p..p + |w|] == w
  }

  lemma HoldsSplit(s: string, p: nat, a: string, b: string)
    requires Holds(s, p, a + b)
    ensures Holds(s, p, a) && Holds(s, p + |a|, b)
  {
    var w := a + b;
    assert s[p..p + |a|] == s[p..p + |w|][..|a|] == w[..|a|] == a;
    assert s[p + |a|..p + |w|] == s[p..p + |w|][|a|..] == w[|a|..] == b;
  }

  lemma HoldsJoin(s: string, p: nat, a: string, b: string)
    requires Holds(s, p, a) && Holds(s, p + |a|, b)
    ensures Holds(s, p, a + b)
  {
  }

  lemma HoldsAt(s: string, p: nat, w: string, i: nat)
    requires Holds(s, p, w) && i < |w|
    ensures p + i < |s| && s[p + i] == w[i]
  {
    assert s[p..p + |w|][i] == w[i];
  }

  lemma HoldsAll(s: string, p: nat, w: string)
    requires Holds(s, p, w)
    ensures p + |w| <= |s| && forall i :: p <= i < p + |w| ==> s[i] == w[i - p]
  {
    forall i | p <= i < p + |w| ensures s[i] == w[i - p] { HoldsAt(s, p, w, i - p); }
  }

  // ----- Reading a name -----

  lemma {:induction false} SkipSpaceTo(s: string, p: nat, w: string)
    requires Holds(s, p, w) && Blank(w) && !IsSpace(Peek(s, p + |w|))
    ensures SkipSpace(s, p) == p + |w|
    decreases w
  {
    if w != "" {
      HoldsSplit(s, p, w[..1], w[1..]);
      assert w == w[..1] + w[1..];
      HoldsAt(s, p, w, 0);
      SkipSpaceTo(s, p + 1, w[1..]);
    }
  }

  lemma {:induction false} SkipNameTo(s: string, p: nat, w: string, extra: string)
    requires Holds(s, p, w) && p + |w| < |s| && !IsNameChar(s[p + |w|], extra)
    requires forall i :: 0 <= i < |w| ==> IsNameChar(w[i], extra)
    ensures SkipName(s, p, extra) == p + |w|
    decreases w
  {
    if w != "" {
      assert w == w[..1] + w[1..];
      HoldsSplit(s, p, w[..1], w[1..]);
      HoldsAt(s, p, w, 0);
      SkipNameTo(s, p + 1, w[1..], extra);
    }
  }

  /** The character classes that the reader relies on. */
  lemma Classes(ch: char)
    ensures IsNameStart(ch) ==> !IsSpace(ch) && ch !in "#/^!>{&="
    ensures IsSpace(ch) || ch == '}' ==> !IsNameChar(ch, "_") && !IsNameChar(ch, "/._")
    ensures ch in "#/^!>{&}" ==> !IsSpace(ch)
  {
  }

  /** The reader's result from where its scans stop. */
  lemma ReadsNameAt(s: string, p: nat, first: nat, last: nat, end: nat, extra: string)
    requires p <= first < last <= end && Holds(s, end, "}}")
    requires SkipSpace(s, p) == first && IsNameStart(s[first])
    requires SkipName(s, first + 1, extra) == last && SkipSpace(s, last) == end
    ensures ReadName(s, p, extra) == GoodName(first, last, end + 2)
  {
    hide SkipSpace, SkipName, IsNameStart;
    HoldsAt(s, end, "}}", 0);
    HoldsAt(s, end, "}}", 1);
  }

  /** The scan for the end of a name stops at the white space or the braces behind it. */
  lemma NameEnds(s: string, p: nat, name: string, trail: string, tag: ActionType)
    requires Holds(s, p, name + (trail + "}}")) && Blank(trail) && tag != Ignore && ValidName(tag, name)
    ensures var last := p + |name|;
            p < last < |s| && IsNameStart(s[p]) && !IsSpace(s[p]) && SkipName(s, p + 1, Extra(tag)) == last
  {
    hide Space, NameStart, NamePart, Holds, SkipName, IsNameStart, IsNameChar, IsSpace;
    var last := p + |name|;
    HoldsSplit(s, p, name, trail + "}}");
    HoldsAt(s, p, name, 0);
    HoldsAt(s, last, trail + "}}", 0);
    HoldsTail(s, p, name);
    Classes(s[p]);
    Classes(s[last]);
    SkipNameTo(s, p + 1, name[1..], Extra(tag));
  }

  lemma ReadsName(s: string, p: nat, gap: string, name: string, trail: string, tag: ActionType)
    requires Holds(s, p, gap + (name + (trail + "}}"))) && Blank(gap) && Blank(trail)
    requires tag != Ignore && ValidName(tag, name)
    ensures var first := p + |gap|; var last := first + |name|;
            p <= |s| && ReadName(s, p, Extra(tag)) == GoodName(first, last, last + |trail| + 2)
  {
    hide Holds, SkipSpace, SkipName, ReadName, IsNameStart, IsNameChar, IsSpace, ValidName, Extra;
    var first := p + |gap|;
    var last := first + |name|;
    HoldsSplit(s, p, gap, name + (trail + "}}"));
    NameEnds(s, first, name, trail, tag);
    HoldsSplit(s, first, name, trail + "}}");
    HoldsSplit(s, last, trail, "}}");
    HoldsAt(s, last + |trail|, "}}", 0);
    Classes('}');
    SkipSpaceTo(s, p, gap);
    SkipSpaceTo(s, last, trail);
    ReadsNameAt(s, p, first, last, last + |trail|, Extra(tag));
  }

  lemma HoldsTail(s: string, p: nat, w: string)
    requires Holds(s, p, w) && w != ""
    ensures Holds(s, p + 1, w[1..])
  {
    assert w == w[..1] + w[1..];
    HoldsSplit(s, p, w[..1], w[1..]);
  }

  lemma {:induction false} SkippedSpace(s: string, p: nat)
    requires p <= |s|
    ensures Blank(s[p..SkipSpace(s, p)]) && !IsSpace(Peek(s, SkipSpace(s, p)))
    decreases |s| - p
  {
    if p < |s| && IsSpace(s[p]) {
      SkippedSpace(s, p + 1);
      var q := SkipSpace(s, p);
      assert s[p..q] == [s[p]] + s[p + 1..q];
    }
  }

  lemma {:induction false} SkippedName(s: string, p: nat, extra: string)
    requires p <= |s|
    ensures forall i :: p <= i < SkipName(s, p, extra) ==> IsNameChar(s[i], extra)
    decreases |s| - p
  {
    if p < |s| && IsNameChar(s[p], extra) { SkippedName(s, p + 1, extra); }
  }

  lemma NameParts(s: string, p: nat, extra: string)
    requires p <= |s| && ReadName(s, p, extra).GoodName?
    ensures var n := ReadName(s, p, extra); var end := SkipSpace(s, n.last);
            && n.start == SkipSpace(s, p) < |s| && IsNameStart(s[n.start]) && n.last == SkipName(s, n.start + 1, extra)
            && n.next == end + 2 && Holds(s, end, "}}")
  {
    hide SkipSpace, SkipName, IsNameChar, IsSpace;
  }

  lemma NameText(s: string, p: nat, tag: ActionType)
    requires p <= |s| && tag != Ignore && ReadName(s, p, Extra(tag)).GoodName?
    ensures var n := ReadName(s, p, Extra(tag));
            && p <= n.start < n.last <= n.next - 2 <= |s| && n.start == SkipSpace(s, p)
            && Blank(s[p..n.start]) && Blank(s[n.last..n.next - 2]) && ValidName(tag, s[n.start..n.last])
            && Holds(s, n.next - 2, "}}")
  {
    hide Space, NameStart, NamePart;
    var extra := Extra(tag);
    NameParts(s, p, extra);
    var n := ReadName(s, p, extra);
    SkippedSpace(s, p);
    SkippedSpace(s, n.last);
    SkippedName(s, n.start + 1, extra);
    StartIsNameChar(s[n.start], extra);
    hide ReadName, SkipSpace, SkipName, IsNameStart, IsSpace, IsNameChar, Holds;
    forall i | 0 <= i < n.last - n.start ensures IsNameChar(s[n.start..n.last][i], extra) {
      assert s[n.start..n.last][i] == s[n.start + i];
      if i > 0 { assert n.start + 1 <= n.start + i < SkipName(s, n.start + 1, extra); }
    }
  }

  lemma StartIsNameChar(ch: char, extra: string)
    requires IsNameStart(ch) && '_' in extra
    ensures IsNameChar(ch, extra)
  {
  }

  // ----- Reading a comment -----

  lemma {:induction false} SkipCommentTo(s: string, p: nat, e: nat)
    requires p <= e && e + 1 < |s| && s[e + 1] == '}'
    requires forall i :: p <= i <= e ==> s[i] != '}'
    ensures SkipComment(s, p) == e
    decreases e - p
  {
    if p < e { SkipCommentTo(s, p + 1, e); }
  }

  lemma {:induction false} SkippedComment(s: string, p: nat)
    requires p <= |s|
    ensures forall i :: p <= i < SkipComment(s, p) ==> s[i] != '}'
    ensures SkipComment(s, p) > p ==> Peek(s, SkipComment(s, p)) != '}'
    decreases |s| - p
  {
    if p < |s| && s[p] != '}' && Peek(s, p + 1) != '}' { SkippedComment(s, p + 1); }
  }

  lemma ReadsComment(s: string, p: nat, name: string, trail: string)
    requires Holds(s, p, name + trail)
    requires name == "}" || (ValidName(Ignore, name) && trail != "" && trail[0] == '}')
    ensures SkipComment(s, p) == p + |name| - 1 < |s| && (s[p + |name| - 1] == '}' || Peek(s, p + |name|) == '}')
  {
    HoldsSplit(s, p, name, trail);
    HoldsAll(s, p, name);
    hide Holds;
    if name == "}" {
      assert s[p] == '}';
    } else {
      assert Holds(s, p + |name|, trail);
      HoldsAt(s, p + |name|, trail, 0);
      forall i | p <= i <= p + |name| - 1 ensures s[i] != '}' { assert s[i] == name[i - p]; }
      SkipCommentTo(s, p, p + |name| - 1);
    }
  }

  // ----- Reading a tag -----

  /** The state after a text and a tag that stand at the cursor. */
  function MarkStep(st: State, text: string, m: Mark): State {
    var k := st.pos + |text|;
    var first := k + 2 + |m.lead| + |SigilOf(m)| + |m.gap|;
    var last := first + |m.name|;
    var end := last + if m.tag == Ignore then 2 else |m.trail| + |Closer(m)|;
    var n := |st.blocks|;
    State(end, end,
          st.actions + [Action(m.tag, first, last, if m.tag == CloseBlock && n > 0 then st.blocks[n - 1] else 0)],
          st.fragments + [Fragment(st.frag, k)],
          if m.tag == OpenBlock || m.tag == ElseBlock then st.blocks + [|st.actions|]
          else if m.tag == CloseBlock && n > 0 then st.blocks[..n - 1] else st.blocks)
  }

  /** The innermost open block of `st` is called `name`. */
  predicate InBlock(s: string, st: State, name: string)
    requires NamesInRange(s, st) && BlocksInRange(st)
  {
    && st.blocks != []
    && var a := st.actions[st.blocks[|st.blocks| - 1]]; s[a.first..a.last] == name
  }

  /** What the tag reader does with the name it has read, by kind of tag. */
  function Deliver(s: string, st: State, tag: ActionType, triple: bool, q: nat): Result<State>
    requires q <= |s| && BlocksInRange(st) && NamesInRange(s, st)
  {
    if tag == Ignore then Comment(s, st, q)
    else if tag == CloseBlock then Close(s, st, q)
    else
      var n := ReadName(s, q, Extra(tag));
      if n.BadName? then Rejected
      else if tag == OpenBlock || tag == ElseBlock then Open(st, tag, n)
      else if !triple then Emit(st, tag, n)
      else if CharAt(s, n.next) != '}' then Rejected
      else Emit(st, tag, n.(next := n.next + 1))
  }

  /** The kind of tag that a character announces. */
  function Announced(ch: char): (ActionType, bool) {
    if ch == '#' then (OpenBlock, false)
    else if ch == '/' then (CloseBlock, false)
    else if ch == '^' then (ElseBlock, false)
    else if ch == '!' then (Ignore, false)
    else if ch == '>' then (Partial, false)
    else if ch == '{' then (UnEscapeTag, true)
    else if ch == '&' then (UnEscapeTag, false)
    else (Tag, false)
  }

  lemma Dispatches(s: string, st: State)
    requires st.pos <= |s| && BlocksInRange(st) && NamesInRange(s, st)
    ensures var p := SkipSpace(s, st.pos); var (tag, triple) := Announced(Peek(s, p));
            var q := if tag == Tag then p else p + 1;
            q <= |s| && ReadTag(s, st) == if Peek(s, p) == '=' then Rejected else Deliver(s, st, tag, triple, q)
  {
    hide ReadName, SkipSpace, Close, Comment, Emit, Open, BlocksInRange, NamesInRange;
    var p := SkipSpace(s, st.pos);
    var tok := Peek(s, p);
    var (tag, triple) := Announced(tok);
    if tok == '/' {
      assert tag == CloseBlock;
    } else if tok == '!' {
      assert tag == Ignore;
    } else if tok == '#' || tok == '^' {
      assert tag == OpenBlock || tag == ElseBlock;
    } else if tok == '{' {
      assert triple;
    } else {
      assert !triple;
    }
  }

  /** A tag is its parts, one after the other. */
  lemma MarkParts(s: string, p: nat, m: Mark)
    requires Holds(s, p, MarkText(m))
    ensures Holds(s, p, "{{") && Holds(s, p + 2, m.lead) && Holds(s, p + 2 + |m.lead|, SigilOf(m))
    ensures Holds(s, p + 2 + |m.lead| + |SigilOf(m)|, m.gap + (m.name + (m.trail + Closer(m))))
    ensures Holds(s, p + 2 + |m.lead| + |SigilOf(m)| + |m.gap|, m.name)
  {
    hide Holds, SigilOf, Closer;
    var foot := m.name + (m.trail + Closer(m));
    HoldsSplit(s, p, "{{", m.lead + (SigilOf(m) + (m.gap + foot)));
    HoldsSplit(s, p + 2, m.lead, SigilOf(m) + (m.gap + foot));
    var q := p + 2 + |m.lead| + |SigilOf(m)|;
    HoldsSplit(s, p + 2 + |m.lead|, SigilOf(m), m.gap + foot);
    HoldsSplit(s, q, m.gap, foot);
    HoldsSplit(s, q + |m.gap|, m.name, m.trail + Closer(m));
  }

  /** The character after the space behind the braces announces the kind of tag. */
  lemma ReadsKind(s: string, p: nat, m: Mark)
    requires Holds(s, p, MarkText(m)) && ValidMark(m)
    ensures p + 2 <= |s| && s[p] == s[p + 1] == '{'
    ensures var k := p + 2 + |m.lead|;
            SkipSpace(s, p + 2) == k && Peek(s, k) != '=' && Announced(Peek(s, k)) == (m.tag, m.triple)
  {
    hide Space, NameStart, NamePart, SkipSpace, IsNameStart, IsNameChar, IsSpace, Holds, MarkText;
    var k := p + 2 + |m.lead|;
    MarkParts(s, p, m);
    HoldsAt(s, p, "{{", 0);
    HoldsAt(s, p, "{{", 1);
    if m.tag == Tag {
      assert m.gap == "" && SigilOf(m) == "";
      HoldsAt(s, k, m.name, 0);
    } else {
      HoldsAt(s, k, SigilOf(m), 0);
    }
    Classes(s[k]);
    SkipSpaceTo(s, p + 2, m.lead);
  }

  /** The state after a tag that is not a comment and whose name was found. */
  function Delivered(st: State, tag: ActionType, first: nat, last: nat, end: nat): State
    requires tag == CloseBlock ==> st.blocks != []
  {
    var n := |st.blocks|;
    State(end, end, st.actions + [Action(tag, first, last, if tag == CloseBlock then st.blocks[n - 1] else 0)],
          st.fragments,
          if tag == OpenBlock || tag == ElseBlock then st.blocks + [|st.actions|]
          else if tag == CloseBlock then st.blocks[..n - 1] else st.blocks)
  }

  lemma DeliversRead(s: string, st: State, tag: ActionType, triple: bool, q: nat)
    requires q <= |s| && tag != Ignore && (triple ==> tag == UnEscapeTag)
    requires ReadName(s, q, Extra(tag)).GoodName? && BlocksInRange(st) && NamesInRange(s, st)
    requires var n := ReadName(s, q, Extra(tag));
             && (tag == CloseBlock ==> InBlock(s, st, s[n.start..n.last])) && (triple ==> Peek(s, n.next) == '}')
    ensures var n := ReadName(s, q, Extra(tag));
            Deliver(s, st, tag, triple, q)
            == Accepted(Delivered(st, tag, n.start, n.last, if triple then n.next + 1 else n.next))
  {
    hide ReadName;
  }

  lemma DeliversName(s: string, st: State, m: Mark, q: nat)
    requires m.tag != Ignore && Holds(s, q, m.gap + (m.name + (m.trail + Closer(m)))) && ValidMark(m)
    requires BlocksInRange(st) && NamesInRange(s, st) && (m.tag == CloseBlock ==> InBlock(s, st, m.name))
    ensures var first := q + |m.gap|; var last := first + |m.name|; var end := last + |m.trail| + |Closer(m)|;
            q <= |s| && Deliver(s, st, m.tag, m.triple, q) == Accepted(Delivered(st, m.tag, first, last, end))
  {
    hide Holds, ReadName, Deliver, IsNameStart, IsNameChar, IsSpace, ValidName, Delivered;
    var first, w := q + |m.gap|, m.gap + (m.name + (m.trail + "}}"));
    if m.triple {
      assert m.gap + (m.name + (m.trail + Closer(m))) == w + "}";
      HoldsSplit(s, q, w, "}");
      HoldsAt(s, q + |w|, "}", 0);
    }
    ReadsName(s, q, m.gap, m.name, m.trail, m.tag);
    HoldsSplit(s, q, m.gap, m.name + (m.trail + "}}"));
    HoldsSplit(s, first, m.name, m.trail + "}}");
    HoldsText(s, first, m.name);
    DeliversRead(s, st, m.tag, m.triple, q);
  }

  lemma HoldsText(s: string, p: nat, w: string)
    requires Holds(s, p, w)
    ensures p + |w| <= |s| && s[p..p + |w|] == w
  {
  }

  lemma DeliversComment(s: string, st: State, m: Mark, q: nat)
    requires m.tag == Ignore && Holds(s, q, m.gap + (m.name + (m.trail + Closer(m)))) && ValidMark(m)
    requires BlocksInRange(st) && NamesInRange(s, st)
    ensures var last := q + |m.name|;
            q <= |s| && Deliver(s, st, Ignore, false, q)
            == Accepted(State(last + 2, last + 2, st.actions + [Action(Ignore, q, last, 0)], st.fragments, st.blocks))
  {
    hide SkipComment, Holds;
    assert m.gap + (m.name + (m.trail + Closer(m))) == m.name + m.trail;
    ReadsComment(s, q, m.name, m.trail);
  }

  /** A tag of the language, wherever it stands, is read whole. */
  lemma ReadsMark(s: string, st: State, m: Mark)
    requires Holds(s, st.pos, MarkText(m)) && ValidMark(m)
    requires BlocksInRange(st) && NamesInRange(s, st) && (m.tag == CloseBlock ==> InBlock(s, st, m.name))
    ensures st.pos + 2 <= |s| && s[st.pos] == s[st.pos + 1] == '{'
    ensures TagAtCursor(s, st) == Accepted(MarkStep(st, "", m))
  {
    hide Holds, MarkText, ReadTag, Deliver, Announced, SkipSpace, ValidName, Blank, SigilOf, Closer;
    SigilLength(m);
    var mid := st.(fragments := st.fragments + [Fragment(st.frag, st.pos)], pos := st.pos + 2);
    var q := mid.pos + |m.lead| + |SigilOf(m)|;
    ReadsKind(s, st.pos, m);
    Dispatches(s, mid);
    MarkParts(s, st.pos, m);
    if m.tag == Ignore {
      DeliversComment(s, mid, m, q);
    } else {
      DeliversName(s, mid, m, q);
    }
  }

  lemma SigilLength(m: Mark)
    requires ValidMark(m)
    ensures |SigilOf(m)| == if m.tag == Tag then 0 else 1
  {
    hide ValidName, Blank;
  }

  // ----- What is read is a tag of the language -----

  lemma JoinsMark(s: string, p: nat, m: Mark, q: nat)
    requires Holds(s, p, "{{") && Holds(s, p + 2, m.lead) && Holds(s, p + 2 + |m.lead|, SigilOf(m))
    requires q == p + 2 + |m.lead| + |SigilOf(m)| && Holds(s, q, m.gap) && Holds(s, q + |m.gap|, m.name)
    requires Holds(s, q + |m.gap| + |m.name|, m.trail) && Holds(s, q + |m.gap| + |m.name| + |m.trail|, Closer(m))
    ensures Holds(s, p, MarkText(m))
  {
    hide Holds, SigilOf, Closer;
    var foot := m.name + (m.trail + Closer(m));
    HoldsJoin(s, q + |m.gap| + |m.name|, m.trail, Closer(m));
    HoldsJoin(s, q + |m.gap|, m.name, m.trail + Closer(m));
    JoinsHead(s, p, m.lead, SigilOf(m), m.gap, foot, q);
  }

  lemma JoinsHead(s: string, p: nat, lead: string, sigil: string, gap: string, foot: string, q: nat)
    requires Holds(s, p, "{{") && Holds(s, p + 2, lead) && Holds(s, p + 2 + |lead|, sigil)
    requires q == p + 2 + |lead| + |sigil| && Holds(s, q, gap) && Holds(s, q + |gap|, foot)
    ensures Holds(s, p, "{{" + (lead + (sigil + (gap + foot))))
  {
    hide Holds;
    HoldsJoin(s, q, gap, foot);
    HoldsJoin(s, p + 2 + |lead|, sigil, gap + foot);
    HoldsJoin(s, p + 2, lead, sigil + (gap + foot));
    HoldsJoin(s, p, "{{", lead + (sigil + (gap + foot)));
  }

  lemma HoldsSlice(s: string, p: nat, q: nat)
    requires p <= q <= |s|
    ensures Holds(s, p, s[p..q]) && |s[p..q]| == q - p
  {
  }

  lemma HoldsChar(s: string, p: nat, ch: char)
    requires p < |s| && s[p] == ch
    ensures Holds(s, p, [ch])
  {
  }

  /** Everything in front of the name, for the kind of tag that was announced. */
  lemma KindText(s: string, p: nat)
    requires p <= |s|
    ensures var k := SkipSpace(s, p); var (tag, triple) := Announced(Peek(s, k));
            && Blank(s[p..k]) && !IsSpace(Peek(s, k)) && (triple ==> tag == UnEscapeTag)
            && (tag != Tag ==> k < |s| && Holds(s, k, if triple then "{" else Sigil(tag)))
  {
    SkippedSpace(s, p);
    var k := SkipSpace(s, p);
    hide SkipSpace, IsSpace;
    if Announced(Peek(s, k)).0 != Tag { HoldsChar(s, k, s[k]); }
  }

  lemma NameMark(s: string, st: State, k: nat, tag: ActionType, triple: bool, q: nat) returns (m: Mark)
    requires st.pos + 2 <= k <= q <= |s| && Holds(s, st.pos, "{{") && Blank(s[st.pos + 2..k])
    requires !IsSpace(Peek(s, k)) && (triple ==> tag == UnEscapeTag) && tag != Ignore
    requires q == (if tag == Tag then k else k + 1) && Holds(s, k, if triple then "{" else Sigil(tag))
    requires ReadName(s, q, Extra(tag)).GoodName?
    requires triple ==> Peek(s, ReadName(s, q, Extra(tag)).next) == '}'
    ensures m.tag == tag && m.name == (var n := ReadName(s, q, Extra(tag)); s[n.start..n.last])
    ensures ValidMark(m) && Holds(s, st.pos, MarkText(m))
  {
    hide Space, NameStart, NamePart, Holds, IsSpace, IsNameStart, IsNameChar, MarkText, ReadName;
    var n := ReadName(s, q, Extra(tag));
    NameText(s, q, tag);
    if tag == Tag { SkippedNone(s, k); }
    m := Mark(tag, triple, s[st.pos + 2..k], s[q..n.start], s[n.start..n.last], s[n.last..n.next - 2]);
    HoldsSlice(s, st.pos + 2, k);
    HoldsSlice(s, q, n.start);
    HoldsSlice(s, n.start, n.last);
    HoldsSlice(s, n.last, n.next - 2);
    if triple {
      HoldsText(s, n.next - 2, "}}");
      HoldsChar(s, n.next, '}');
      HoldsJoin(s, n.next - 2, "}}", "}");
      assert "}}" + "}" == "}}}";
    }
    JoinsMark(s, st.pos, m, q);
  }

  lemma SkippedNone(s: string, p: nat)
    requires p <= |s| && !IsSpace(Peek(s, p))
    ensures SkipSpace(s, p) == p
  {
  }

  lemma CommentMark(s: string, st: State, k: nat) returns (m: Mark)
    requires st.pos + 2 <= k < |s| && Holds(s, st.pos, "{{") && Blank(s[st.pos + 2..k]) && Holds(s, k, "!")
    requires var e := SkipComment(s, k + 1); CharAt(s, e) == '}' || Peek(s, e + 1) == '}'
    ensures m.tag == Ignore && ValidMark(m) && Holds(s, st.pos, MarkText(m))
    ensures Complete(m) || st.pos + |MarkText(m)| == |s|
  {
    hide Holds, IsSpace, SkipComment, MarkText;
    var q, e := k + 1, SkipComment(s, k + 1);
    SkippedComment(s, q);
    var end := if e + 3 <= |s| then e + 3 else |s|;
    var name := s[q..e + 1];
    m := Mark(Ignore, false, s[st.pos + 2..k], "", name, s[e + 1..end]);
    if s[e] == '}' { assert e == q; } else { CommentName(s, q, e); }
    HoldsSlice(s, st.pos + 2, k);
    HoldsSlice(s, q, q);
    HoldsSlice(s, q, e + 1);
    HoldsSlice(s, e + 1, end);
    HoldsSlice(s, end, end);
    JoinsMark(s, st.pos, m, q);
    MarkLength(m);
  }

  lemma CommentName(s: string, q: nat, e: nat)
    requires q <= e < |s| && forall i :: q <= i <= e ==> s[i] != '}'
    ensures ValidName(Ignore, s[q..e + 1])
  {
  }

  lemma MarkLength(m: Mark)
    ensures |MarkText(m)| == 2 + |m.lead| + |SigilOf(m)| + |m.gap| + |m.name| + |m.trail| + |Closer(m)|
  {
  }

  /** A tag that was read is a tag of the language. */
  lemma MarkRead(s: string, st: State) returns (m: Mark)
    requires Holds(s, st.pos, "{{") && BlocksInRange(st) && NamesInRange(s, st) && TagAtCursor(s, st).Accepted?
    ensures ValidMark(m) && Holds(s, st.pos, MarkText(m)) && (Complete(m) || st.pos + |MarkText(m)| == |s|)
    ensures m.tag == CloseBlock ==> InBlock(s, st, m.name)
  {
    hide Holds, MarkText, ReadTag, IsSpace, Announced, SkipSpace, ReadName, SkipComment, ValidMark, Blank, Emit,
         Open;
    HoldsText(s, st.pos, "{{");
    var mid := st.(fragments := st.fragments + [Fragment(st.frag, st.pos)], pos := st.pos + 2);
    var k := SkipSpace(s, mid.pos);
    var (tag, triple) := Announced(Peek(s, k));
    Dispatches(s, mid);
    KindText(s, mid.pos);
    if tag == Ignore {
      m := CommentMark(s, st, k);
    } else {
      var q := if tag == Tag then k else k + 1;
      if tag == Tag { HoldsSlice(s, k, k); }
      m := NameMark(s, st, k, tag, triple, q);
    }
  }

  // ----- The scan -----

  /** The names of the open blocks, innermost last. */
  function OpenNames(s: string, st: State): seq<string>
    requires BlocksInRange(st) && NamesInRange(s, st)
  {
    seq(|st.blocks|, i requires 0 <= i < |st.blocks| =>
      s[st.actions[st.blocks[i]].first..st.actions[st.blocks[i]].last])
  }

  /** How a tag moves the names of the open blocks. */
  predicate NamesMove(open: seq<string>, m: Mark, next: seq<string>) {
    if m.tag == OpenBlock || m.tag == ElseBlock then next == open + [m.name]
    else if m.tag != CloseBlock then next == open
    else open != [] && open[|open| - 1] == m.name && next == open[..|open| - 1]
  }

  lemma MarkMovesNames(s: string, st: State, text: string, m: Mark)
    requires BlocksInRange(st) && NamesInRange(s, st) && (m.tag == CloseBlock ==> InBlock(s, st, m.name))
    requires Holds(s, st.pos + |text|, MarkText(m)) && m.name != ""
    ensures var next := MarkStep(st, text, m);
            BlocksInRange(next) && NamesInRange(s, next) && NamesMove(OpenNames(s, st), m, OpenNames(s, next))
  {
    hide MarkText, Holds, SigilOf;
    var next := MarkStep(st, text, m);
    var k := st.pos + |text|;
    var first := k + 2 + |m.lead| + |SigilOf(m)| + |m.gap|;
    MarkParts(s, k, m);
    HoldsText(s, first, m.name);
    assert next.actions == st.actions + [next.actions[|st.actions|]];
    assert forall i :: 0 <= i < |st.actions| ==> next.actions[i] == st.actions[i];
    var was, now := OpenNames(s, st), OpenNames(s, next);
    assert forall i :: 0 <= i < |was| && i < |now| ==> now[i] == was[i];
    if m.tag == OpenBlock || m.tag == ElseBlock {
      assert now == was + [m.name];
    } else if m.tag == CloseBlock {
      assert now == was[..|was| - 1];
    } else {
      assert now == was;
    }
  }

  /** The text before a tag only moves the cursor. */
  lemma MarkBehindText(st: State, text: string, m: Mark)
    ensures var next := MarkStep(st, text, m);
            && MarkStep(st.(pos := st.pos + |text|), "", m) == next && next.frag == next.pos
            && |next.actions| == |st.actions| + 1
  {
    hide SigilOf, Closer;
  }

  /** A text and a tag at the cursor, and the state behind them. */
  lemma ScansChunk(s: string, st: State, text: string, m: Mark)
    requires Inv(s, st) && st.frag == st.pos && Holds(s, st.pos, text + MarkText(m)) && PlainText(text) && ValidMark(m)
    requires BlocksInRange(st) && NamesInRange(s, st) && (m.tag == CloseBlock ==> InBlock(s, st, m.name))
    ensures var next := MarkStep(st, text, m);
            Inv(s, next) && next.frag == next.pos && Scan(s, st) == Scan(s, next)
  {
    hide Inv, Scan, TagAtCursor, ValidMark, MarkText, PlainText, MarkStep, SigilOf, Closer;
    var k := st.pos + |text|;
    MarkBehindText(st, text, m);
    HoldsSplit(s, st.pos, text, MarkText(m));
    MarkParts(s, k, m);
    HoldsAt(s, k, "{{", 0);
    PlainBefore(s, st.pos, text);
    HoldsText(s, st.pos, text);
    hide Holds;
    ScansText(s, st, k);
    var mid := st.(pos := k);
    ReadsMark(s, mid, m);
    ScansTag(s, mid);
  }

  lemma PlainBefore(s: string, p: nat, text: string)
    requires Holds(s, p, text) && PlainText(text)
    ensures forall i :: p <= i < p + |text| ==> !(s[i] == '{' && Peek(s, i + 1) == '{')
  {
    HoldsAll(s, p, text);
    hide Holds;
    forall i | p <= i < p + |text| ensures !(s[i] == '{' && Peek(s, i + 1) == '{') {
      assert s[i] == text[i - p];
      if i + 1 < p + |text| { assert s[i + 1] == text[i + 1 - p]; }
    }
  }

  lemma {:induction false} ScansText(s: string, st: State, k: nat)
    requires Inv(s, st) && st.pos <= k <= |s|
    requires forall i :: st.pos <= i < k ==> !(s[i] == '{' && Peek(s, i + 1) == '{')
    ensures Inv(s, st.(pos := k)) && Scan(s, st) == Scan(s, st.(pos := k))
    decreases k - st.pos
  {
    hide TagAtCursor, OpenBlocks, AsBlocks;
    if st.pos < k {
      ScansText(s, st.(pos := st.pos + 1), k);
    }
  }

  // ----- Every text of the language is accepted -----

  /** The arrays of `st` are the beginning of those of `t`. */
  ghost predicate Begins(st: State, t: Template) {
    |st.actions| == |st.fragments| && st.actions <= t.actions && st.fragments <= t.fragments
  }

  /** No ElseBlock so far is followed by a tag, unless it closes the block. */
  predicate ElseSoFar(actions: seq<Action>, src: Source) {
    && (forall i :: 0 <= i < |actions| - 1 ==> !BadElse(actions, i))
    && (actions != [] && actions[|actions| - 1].tag == ElseBlock && src.Chunk? ==> src.mark.tag == CloseBlock)
  }

  lemma MarkCell(s: string, st: State, text: string, m: Mark, t: Template)
    requires t.body == s && InBounds(t) && st.frag == st.pos && |st.actions| == |st.fragments|
    requires Begins(MarkStep(st, text, m), t) && Holds(s, st.pos, text + MarkText(m))
    ensures Begins(st, t) && Cell(CodeOf(t), |st.actions|, text, m.tag, m.name)
  {
    hide MarkText, SigilOf;
    var n, k := |st.actions|, st.pos + |text|;
    var next := MarkStep(st, text, m);
    HoldsSplit(s, st.pos, text, MarkText(m));
    MarkParts(s, k, m);
    assert t.actions[n] == next.actions[n] && t.fragments[n] == next.fragments[n];
    assert st.actions == next.actions[..n] && st.fragments == next.fragments[..n];
  }

  lemma LengthsOf(s: string, st: State)
    requires Inv(s, st)
    ensures |st.actions| == |st.fragments| && BlocksInRange(st) && NamesInRange(s, st)
  {
  }

  /** The text of a chunk stands at the cursor, and behind it the cursor stands at the rest. */
  lemma HoldsChunk(s: string, st: State, text: string, m: Mark, rest: Source)
    requires st.pos <= |s| && s[st.pos..] == text + (MarkText(m) + Spell(rest))
    requires ValidMark(m) && (Complete(m) || rest == Tail(""))
    ensures Holds(s, st.pos, text + MarkText(m)) && m.name != ""
    ensures var next := MarkStep(st, text, m);
            if next.pos <= |s| then s[next.pos..] == Spell(rest) else rest == Tail("")
  {
    hide Space, NameStart, NamePart, MarkText, Spell, SigilOf;
    var w := text + MarkText(m);
    var end := st.pos + |w|;
    assert s[st.pos..] == w + Spell(rest);
    assert s[st.pos..end] == s[st.pos..][..|w|] == w;
    assert s[end..] == s[st.pos..][|w|..] == Spell(rest);
    MarkLength(m);
    if !Complete(m) { assert Tail("").text == ""; SpellTail(""); }
  }

  lemma SpellTail(text: string)
    ensures Spell(Tail(text)) == text
  {
  }

  lemma InnermostBlock(s: string, st: State, name: string)
    requires BlocksInRange(st) && NamesInRange(s, st)
    ensures InBlock(s, st, name)
            <==> OpenNames(s, st) != [] && OpenNames(s, st)[|OpenNames(s, st)| - 1] == name
  {
  }

  lemma ElseGoesOn(st: State, text: string, m: Mark, rest: Source)
    requires ElseIsEmpty(Chunk(text, m, rest)) && ElseSoFar(st.actions, Chunk(text, m, rest))
    ensures ElseSoFar(MarkStep(st, text, m).actions, rest)
  {
    hide SigilOf, Closer;
    var now, n := MarkStep(st, text, m).actions, |st.actions|;
    assert now[..n] == st.actions && |now| == n + 1 && now[n].tag == m.tag;
    forall i | 0 <= i < n ensures !BadElse(now, i) {
      assert now[i] == st.actions[i];
      if i + 1 < n { assert now[i + 1] == st.actions[i + 1] && !BadElse(st.actions, i); }
    }
  }

  lemma AcceptsTail(s: string, st: State, text: string)
    requires Inv(s, st) && st.frag == st.pos && st.blocks == [] && ElseSoFar(st.actions, Tail(text)) && PlainTail(text)
    requires if st.pos <= |s| then s[st.pos..] == text else text == ""
    ensures Scan(s, st).Accepted?
    ensures var t := Scan(s, st).value;
            t.body == s && InBounds(t) && Begins(st, t) && Compiles(CodeOf(t), |st.actions|, Tail(text))
  {
    hide Inv, Scan, BadElse, PlainTail;
    var end := if st.pos <= |s| then st.(pos := |s|) else st;
    if st.pos <= |s| {
      PlainRest(s, st.pos);
      ScansText(s, st, |s|);
    }
    ScanAtEnd(s, end);
    LengthsOf(s, st);
    ScanIsWellFormed(s, st);
    hide WellFormed;
    FinishCompiles(s, end, text);
  }

  lemma PlainRest(s: string, p: nat)
    requires p <= |s| && PlainTail(s[p..])
    ensures forall i :: p <= i < |s| ==> !(s[i] == '{' && Peek(s, i + 1) == '{')
  {
    var text := s[p..];
    forall i | p <= i < |s| ensures !(s[i] == '{' && Peek(s, i + 1) == '{') {
      assert s[i] == text[i - p];
      if i + 1 < |s| { assert s[i + 1] == text[i + 1 - p]; }
    }
  }

  lemma ScanAtEnd(s: string, st: State)
    requires Inv(s, st) && st.pos >= |s|
    ensures Scan(s, st) == Finish(s, st)
  {
    hide Inv;
  }

  lemma FinishCompiles(s: string, end: State, text: string)
    requires Finish(s, end).Accepted? && InBounds(Finish(s, end).value) && |end.actions| == |end.fragments|
    requires if end.frag <= |s| then end.pos == |s| && s[end.frag..] == text else end.frag == end.pos && text == ""
    ensures Compiles(CodeOf(Finish(s, end).value), |end.actions|, Tail(text))
  {
    hide BadElse;
    var t := Finish(s, end).value;
    var c, n := CodeOf(t), |end.actions|;
    if text == "" {
      assert c.texts[n..] == [];
    } else {
      assert t.fragments[n] == Fragment(end.frag, |s|) && s[end.frag..|s|] == text;
      assert c.texts[n..] == [text];
    }
  }

  /** Where the text `src` is spelled, it is accepted, and compiled to just that. */
  lemma {:induction false} AcceptsSource(s: string, st: State, src: Source)
    requires Inv(s, st) && st.frag == st.pos && BlocksInRange(st) && NamesInRange(s, st)
    requires ValidSource(src) && Nests(src, OpenNames(s, st)) && ElseIsEmpty(src) && ElseSoFar(st.actions, src)
    requires if st.pos <= |s| then s[st.pos..] == Spell(src) else src == Tail("")
    ensures Scan(s, st).Accepted?
    ensures var t := Scan(s, st).value;
            t.body == s && InBounds(t) && Begins(st, t) && Compiles(CodeOf(t), |st.actions|, src)
    decreases src
  {
    hide Inv, Scan, ValidMark, MarkText, InBounds, CodeOf, BadElse, Cell, PlainText, MarkStep, ElseSoFar;
    LengthsOf(s, st);
    match src
    case Tail(text) =>
      assert st.blocks == [];
      AcceptsTail(s, st, text);
    case Chunk(text, m, rest) =>
      var next := MarkStep(st, text, m);
      HoldsChunk(s, st, text, m, rest);
      MarkBehindText(st, text, m);
      InnermostBlock(s, st, m.name);
      HoldsSplit(s, st.pos, text, MarkText(m));
      ScansChunk(s, st, text, m);
      MarkMovesNames(s, st, text, m);
      ElseGoesOn(st, text, m, rest);
      AcceptsSource(s, next, rest);
      MarkCell(s, st, text, m, Scan(s, next).value);
  }

  // ----- Every accepted text is of the language -----

  /** Between the last tag and the cursor no tag begins. */
  predicate NoTagSince(s: string, st: State) {
    forall i :: st.frag <= i < st.pos && i < |s| ==> !(s[i] == '{' && Peek(s, i + 1) == '{')
  }

  /** From `i` on, the actions are the tags of `src`. */
  predicate TagsFrom(actions: seq<Action>, i: nat, src: Source)
    decreases src
  {
    match src
    case Tail(_) => |actions| == i
    case Chunk(_, m, rest) => i < |actions| && actions[i].tag == m.tag && TagsFrom(actions, i + 1, rest)
  }

  lemma CursorOf(s: string, st: State)
    requires Inv(s, st)
    ensures st.frag <= st.pos && (st.pos <= |s| || st.frag == st.pos)
  {
  }

  lemma TailBehind(s: string, st: State) returns (src: Source)
    requires Inv(s, st) && NoTagSince(s, st) && BlocksInRange(st) && NamesInRange(s, st) && Scan(s, st).Accepted?
    requires st.pos >= |s|
    ensures ValidSource(src) && Nests(src, OpenNames(s, st))
    ensures if st.frag <= |s| then s[st.frag..] == Spell(src) else src == Tail("")
    ensures var a := Scan(s, st).value.actions; st.actions <= a && TagsFrom(a, |st.actions|, src)
  {
    hide Inv, BadElse;
    CursorOf(s, st);
    ScanAtEnd(s, st);
    var text := if st.frag <= |s| then s[st.frag..] else "";
    forall i | 0 <= i < |text| - 1 ensures !(text[i] == '{' && text[i + 1] == '{') {
      assert text[i] == s[st.frag + i] && text[i + 1] == s[st.frag + i + 1];
    }
    src := Tail(text);
  }

  lemma PlainSince(s: string, st: State)
    requires NoTagSince(s, st) && st.frag <= st.pos < |s| && s[st.pos] == '{'
    ensures PlainText(s[st.frag..st.pos])
  {
    var text := s[st.frag..st.pos];
    forall i | 0 <= i < |text| - 1 ensures !(text[i] == '{' && text[i + 1] == '{') {
      assert text[i] == s[st.frag + i] && text[i + 1] == s[st.frag + i + 1];
    }
    if text != "" { assert text[|text| - 1] == s[st.pos - 1]; }
  }

  lemma ChunkSpelled(s: string, st: State, m: Mark, rest: Source)
    requires st.frag <= st.pos && Holds(s, st.pos, MarkText(m)) && ValidMark(m)
    requires Complete(m) || st.pos + |MarkText(m)| == |s|
    requires var next := MarkStep(st, "", m); if next.pos <= |s| then s[next.pos..] == Spell(rest) else rest == Tail("")
    ensures s[st.frag..] == Spell(Chunk(s[st.frag..st.pos], m, rest)) && (Complete(m) || rest == Tail(""))
  {
    hide MarkText, MarkStep, ValidMark, Spell;
    var end := st.pos + |MarkText(m)|;
    EndOfMark(s, st, m);
    if !Complete(m) {
      SpellTail("");
      assert s[end..] == "";
    }
    assert s[st.frag..] == s[st.frag..st.pos] + (s[st.pos..end] + s[end..]);
    SpellChunk(s[st.frag..st.pos], m, rest);
  }

  /** The cursor comes to stand behind the tag; behind the end of the text, if a comment was cut short. */
  lemma EndOfMark(s: string, st: State, m: Mark)
    requires Holds(s, st.pos, MarkText(m)) && ValidMark(m)
    ensures var p, end := MarkStep(st, "", m).pos, st.pos + |MarkText(m)|;
            if Complete(m) then p == end <= |s| else p > end
  {
    hide MarkText, SigilOf, Blank, ValidName;
    MarkLength(m);
  }

  lemma SpellChunk(text: string, m: Mark, rest: Source)
    ensures Spell(Chunk(text, m, rest)) == text + (MarkText(m) + Spell(rest))
  {
  }

  /** The source of what remains behind the last tag. */
  lemma {:induction false} SourceBehind(s: string, st: State) returns (src: Source)
    requires Inv(s, st) && NoTagSince(s, st) && BlocksInRange(st) && NamesInRange(s, st) && Scan(s, st).Accepted?
    ensures ValidSource(src) && Nests(src, OpenNames(s, st))
    ensures if st.frag <= |s| then s[st.frag..] == Spell(src) else src == Tail("")
    ensures var a := Scan(s, st).value.actions; st.actions <= a && TagsFrom(a, |st.actions|, src)
    decreases |s| - st.pos
  {
    hide Inv, Scan, TagAtCursor, Spell, PlainText, MarkText, MarkStep, ValidMark, Holds;
    CursorOf(s, st);
    if st.pos >= |s| {
      src := TailBehind(s, st);
    } else if s[st.pos] == '{' && Peek(s, st.pos + 1) == '{' {
      var m := MarkBehind(s, st);
      var next := MarkStep(st, "", m);
      var rest := SourceBehind(s, next);
      PlainSince(s, st);
      ChunkSpelled(s, st, m, rest);
      src := Chunk(s[st.frag..st.pos], m, rest);
      MarkAdds(st, m, Scan(s, st).value.actions);
    } else {
      ScansOne(s, st);
      assert OpenNames(s, st) == OpenNames(s, st.(pos := st.pos + 1));
      src := SourceBehind(s, st.(pos := st.pos + 1));
    }
  }

  lemma MarkAdds(st: State, m: Mark, a: seq<Action>)
    requires MarkStep(st, "", m).actions <= a
    ensures st.actions <= a && |MarkStep(st, "", m).actions| == |st.actions| + 1
    ensures |st.actions| < |a| && a[|st.actions|].tag == m.tag
  {
    hide SigilOf, Closer;
    var now := MarkStep(st, "", m).actions;
    assert st.actions == now[..|st.actions|] == a[..|now|][..|st.actions|];
    assert a[|st.actions|] == now[|st.actions|];
  }

  /** The tag at the cursor, and the state behind it. */
  lemma MarkBehind(s: string, st: State) returns (m: Mark)
    requires Inv(s, st) && BlocksInRange(st) && NamesInRange(s, st) && Scan(s, st).Accepted?
    requires st.pos < |s| && s[st.pos] == '{' && Peek(s, st.pos + 1) == '{'
    ensures ValidMark(m) && Holds(s, st.pos, MarkText(m)) && (Complete(m) || st.pos + |MarkText(m)| == |s|)
    ensures var next := MarkStep(st, "", m);
            && Inv(s, next) && NoTagSince(s, next) && BlocksInRange(next) && NamesInRange(s, next)
            && Scan(s, next) == Scan(s, st) && next.pos > st.pos && next.frag == next.pos
            && NamesMove(OpenNames(s, st), m, OpenNames(s, next))
  {
    hide Inv, Scan, TagAtCursor, MarkText, NamesMove, OpenNames;
    assert Holds(s, st.pos, "{{");
    if TagAtCursor(s, st).Rejected? { ScanFails(s, st); }
    m := MarkRead(s, st);
    ReadsMark(s, st, m);
    ScansTag(s, st);
    MarkMovesNames(s, st, "", m);
  }

  lemma {:induction false} ElseFollows(c: Code, i: nat, a: seq<Action>, src: Source)
    requires |c.ops| == |a| && (forall j :: 0 <= j < |a| ==> c.ops[j].tag == a[j].tag)
    requires Renderable(c) && TagsFrom(a, i, src)
    ensures ElseIsEmpty(src)
    decreases src
  {
    if src.Chunk? {
      ElseFollows(c, i + 1, a, src.rest);
      assert ElseIsClosed(c, i);
    }
  }

  // ----- Theorems -----

  /** Theorem: whatever the language spells is accepted, and the arrays hold just the texts, tags
      and names that are spelled. */
  lemma CompilesSource(src: Source)
    requires IsSource(src)
    ensures var p := Parse(Spell(src)); p.Accepted? && InBounds(p.value) && Compiles(CodeOf(p.value), 0, src)
  {
    hide Inv, Scan, ValidSource, Nests, ElseIsEmpty, InBounds, Compiles;
    var s := Spell(src);
    StartInv(s);
    assert OpenNames(s, START) == [];
    assert s[0..] == s;
    AcceptsSource(s, START, src);
  }

  /** The spelling of an accepted text. */
  lemma SourceOf(s: string) returns (src: Source)
    requires Parse(s).Accepted?
    ensures IsSource(src) && Spell(src) == s
  {
    hide Inv, Scan, ValidSource, Nests, ElseIsEmpty, InBounds, Spell;
    StartInv(s);
    assert OpenNames(s, START) == [];
    src := SourceBehind(s, START);
    assert s[0..] == s;
    AcceptedIsWellFormed(s);
    var t := Parse(s).value;
    TagsKept(t);
    ElseFollows(CodeOf(t), 0, t.actions, src);
  }

  lemma TagsKept(t: Template)
    requires InBounds(t)
    ensures var c := CodeOf(t);
            |c.ops| == |t.actions| && forall i :: 0 <= i < |c.ops| ==> c.ops[i].tag == t.actions[i].tag
  {
  }

  /** Theorem: the compiler accepts exactly the texts of the language. */
  lemma AcceptsTemplates(s: string)
    ensures Parse(s).Accepted? <==> IsTemplate(s)
  {
    hide Parse, IsSource, Spell;
    if Parse(s).Accepted? {
      var src := SourceOf(s);
    }
    if IsTemplate(s) {
      var src :| IsSource(src) && Spell(src) == s;
      CompilesSource(src);
    }
  }
}
