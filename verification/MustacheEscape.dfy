/**
 What a rendered tag writes, by the way back: a reader of HTML that knows six entities gets the value
 from the escaped text, and no other harmless text reads as that value.
 */
module MustacheEscape {
  import opened MustacheTemplate
  import opened MustacheParser
  import opened MustacheGrammar
  import opened MustacheRenderer
  import opened MustacheSource

  /** The entities of HTML that the reader knows. */
  const ENTITIES: map<string, char> :=
    map["&amp;" := '&', "&lt;" := '<', "&gt;" := '>', "&quot;" := '"', "&#39;" := '\'', "&#x2f;" := '/']

  /** Characters that can end a text or an attribute, or begin something else. */
  const SPECIAL: string := "<>\"'/"

  /** The text up to its first semicolon, or nothing if it has none. */
  function UpToSemicolon(t: string): (e: string)
    ensures |e| <= |t|
  {
    if t == "" then ""
    else if t[0] == ';' then ";"
    else
      var e := UpToSemicolon(t[1..]);
      if e == "" then "" else [t[0]] + e
  }

  predicate StartsEntity(t: string) { UpToSemicolon(t) in ENTITIES }

  function Unescape(t: string): string
    decreases |t|
  {
    if t == "" then ""
    else if StartsEntity(t) then [ENTITIES[UpToSemicolon(t)]] + Unescape(t[|UpToSemicolon(t)|..])
    else [t[0]] + Unescape(t[1..])
  }

  /** Nothing in the text is special, and every ampersand begins an entity. */
  predicate Inert(t: string) {
    forall i :: 0 <= i < |t| ==> t[i] !in SPECIAL && (t[i] == '&' ==> StartsEntity(t[i..]))
  }

  // ----- Reading one character -----

  lemma {:induction false} StopsAtSemicolon(e: string, k: string)
    requires e != "" && e[|e| - 1] == ';' && forall i :: 0 <= i < |e| - 1 ==> e[i] != ';'
    ensures UpToSemicolon(e + k) == e
  {
    assert (e + k)[0] == e[0];
    if |e| > 1 {
      assert (e + k)[1..] == e[1..] + k;
      StopsAtSemicolon(e[1..], k);
      assert [e[0]] + e[1..] == e;
    }
  }

  /** An entity is an ampersand, characters that are not special, and a semicolon. */
  lemma EntityShape(e: string)
    requires e in ENTITIES
    ensures |e| > 1 && e[0] == '&' && e[|e| - 1] == ';' && forall i :: 0 <= i < |e| - 1 ==> e[i] != ';'
    ensures forall i :: 0 < i < |e| ==> e[i] !in SPECIAL && e[i] != '&'
    ensures ENTITIES[e] in SPECIAL || ENTITIES[e] == '&'
  {
  }

  lemma EntityFirst(t: string)
    requires StartsEntity(t)
    ensures t != "" && t[0] == '&'
  {
    EntityShape(UpToSemicolon(t));
  }

  lemma EscapedChar(ch: char)
    ensures var e := EscapeChar(ch);
            if ch in SPECIAL || ch == '&' then e in ENTITIES && ENTITIES[e] == ch else e == [ch]
  {
  }

  /** The other way: an entity is what its character is escaped as. */
  lemma EntityIsEscape(e: string)
    requires e in ENTITIES
    ensures EscapeChar(ENTITIES[e]) == e
  {
  }

  lemma PlainChar(ch: char, k: string)
    requires ch != '&'
    ensures !StartsEntity([ch] + k) && Unescape([ch] + k) == [ch] + Unescape(k)
  {
    if StartsEntity([ch] + k) { EntityFirst([ch] + k); }
    assert ([ch] + k)[1..] == k;
  }

  lemma InertMore(e: string, k: string)
    requires Inert(k) && e != "" && e[0] !in SPECIAL && (e[0] == '&' ==> StartsEntity(e + k))
    requires forall i :: 0 < i < |e| ==> e[i] !in SPECIAL && e[i] != '&'
    ensures Inert(e + k)
  {
    var t := e + k;
    forall i | 0 <= i < |t| ensures t[i] !in SPECIAL && (t[i] == '&' ==> StartsEntity(t[i..])) {
      if i >= |e| { assert t[i] == k[i - |e|] && t[i..] == k[i - |e|..]; }
      if i == 0 { assert t[0..] == t; }
    }
  }

  lemma InertTail(t: string, n: nat)
    requires Inert(t) && n <= |t|
    ensures Inert(t[n..])
  {
    forall i | 0 <= i < |t| - n ensures t[n..][i] !in SPECIAL && (t[n..][i] == '&' ==> StartsEntity(t[n..][i..])) {
      assert t[n..][i] == t[n + i] && t[n..][i..] == t[n + i..];
    }
  }

  // ----- The text that is read back -----

  /** Theorem: reading undoes escaping, and escaped text is inert. */
  lemma {:induction false} UnescapeInvertsEscape(s: string)
    ensures Unescape(Escape(s)) == s && Inert(Escape(s))
  {
    hide EscapeChar, Inert, Unescape;
    if s != "" {
      UnescapeInvertsEscape(s[1..]);
      ReadsChar(s[0], Escape(s[1..]));
    } else {
      EmptyText();
    }
  }

  lemma EmptyText()
    ensures Unescape("") == "" && Inert("")
  {
  }

  /** One escaped character in front of inert text. */
  lemma ReadsChar(ch: char, k: string)
    requires Inert(k)
    ensures var t := EscapeChar(ch) + k; Inert(t) && Unescape(t) == [ch] + Unescape(k)
  {
    hide EscapeChar, Inert, Unescape, UpToSemicolon, StartsEntity;
    EscapedChar(ch);
    if ch in SPECIAL || ch == '&' {
      ReadsEntity(EscapeChar(ch), k);
    } else {
      PlainChar(ch, k);
      InertMore([ch], k);
    }
  }

  lemma ReadsEntity(e: string, k: string)
    requires e in ENTITIES && Inert(k)
    ensures Inert(e + k) && Unescape(e + k) == [ENTITIES[e]] + Unescape(k)
  {
    hide UpToSemicolon, Inert;
    EntityShape(e);
    StopsAtSemicolon(e, k);
    assert (e + k)[|e|..] == k;
    assert e[0] !in SPECIAL;
    InertMore(e, k);
  }

  /** Theorem: escaping a value gives the only inert text that reads as the value. */
  lemma {:induction false} EscapeIsOnly(t: string, s: string)
    ensures t == Escape(s) <==> Inert(t) && Unescape(t) == s
    decreases |t|
  {
    UnescapeInvertsEscape(s);
    if Inert(t) && Unescape(t) == s && t != "" {
      hide EscapeChar;
      assert t[0..] == t;
      var e := if StartsEntity(t) then UpToSemicolon(t) else [t[0]];
      BeginsWith(t);
      if StartsEntity(t) { EntityIsEscape(e); EntityShape(e); } else { EscapedChar(t[0]); }
      InertTail(t, |e|);
      EscapeIsOnly(t[|e|..], s[1..]);
      assert t == e + t[|e|..];
    }
  }

  lemma {:induction false} BeginsWith(t: string)
    ensures t == UpToSemicolon(t) + t[|UpToSemicolon(t)|..]
  {
    if t != "" && t[0] != ';' {
      BeginsWith(t[1..]);
      var e := UpToSemicolon(t[1..]);
      if e != "" { assert t == [t[0]] + (e + t[1..][|e|..]); }
    }
  }

  // ----- What a template writes -----

  /** A tag on a string writes the inert text that reads as the string; an unescaped tag writes the string. */
  lemma TagWrites(c: Code, env: Env, ctx: Value, i: nat, s: string, v: string)
    requires Renderable(c) && i < |c.ops| && env.lookup(ctx, c.ops[i].name) == Found(Str(s))
    requires c.ops[i].tag == Tag || c.ops[i].tag == UnEscapeTag
    ensures WalkTag(c, env, ctx, i) == At(v, i)
            <==> if c.ops[i].tag == Tag then Inert(v) && Unescape(v) == s else v == s
  {
    EscapeIsOnly(v, s);
  }

  lemma OneTag(text: string, m: Mark, tail: string)
    requires PlainText(text) && ValidMark(m) && PlainTail(tail) && (m.tag == Tag || m.tag == UnEscapeTag)
    ensures var src, tree := Chunk(text, m, MustacheGrammar.Tail(tail)), Node(text, m.name, Leaf(m.tag), End);
            IsSource(src) && Spells(src, tree, tail) && ReuseHarmless(tree) && Spell(src) == text + (MarkText(m) + tail)
  {
    hide PlainText, PlainTail, ValidMark, MarkText;
    var end := MustacheGrammar.Tail(tail);
    var src, tree := Chunk(text, m, end), Node(text, m.name, Leaf(m.tag), End);
    assert Complete(m) && ValidSource(end) && Nests(end, []) && ElseIsEmpty(end) && Spell(end) == tail;
    assert BehindItem(src, text, m.name, Leaf(m.tag)) == Accepted(end) && Behind(end, End) == Accepted(end);
    assert Behind(src, tree) == Accepted(end);
    assert ValidSource(src) && Nests(src, []) && ElseIsEmpty(src);
  }

  /** Theorem: compiled and rendered, a text with one tag on a string, however it is written, becomes
      the same text with the value in place of the tag: as inert text that reads as the string, or,
      behind `&` or in three braces, as the string itself. */
  lemma RendersValue(text: string, m: Mark, tail: string, env: Env, ctx: Value, s: string, v: string)
    requires PlainText(text) && ValidMark(m) && PlainTail(tail) && env.lookup(ctx, m.name) == Found(Str(s))
    requires m.tag == Tag || m.tag == UnEscapeTag
    requires if m.tag == Tag then Inert(v) && Unescape(v) == s else v == s
    ensures var p := Parse(text + (MarkText(m) + tail));
            && p.Accepted? && InBounds(p.value) && Renderable(CodeOf(p.value))
            && Render(CodeOf(p.value), env, ctx) == Done(text + v + tail)
  {
    hide MarkText, ValidMark, Parse, InBounds, CodeOf, Renderable, Render, Escape, Inert, Unescape, PlainText,
         PlainTail;
    EscapeIsOnly(v, s);
    var src, tree := Chunk(text, m, MustacheGrammar.Tail(tail)), Node(text, m.name, Leaf(m.tag), End);
    OneTag(text, m, tail);
    hide IsSource, Spells, ReuseHarmless;
    RenderSource(src, tree, tail, env, ctx);
    assert RenderLeaf(m.tag, m.name, env, ctx) == Done(v);
    assert text + (v + "") == text + v;
  }
}
