/**
 The template class itself: a compiler that moves a cursor and pushes to two vectors and a block
 stack, and a renderer that moves an index and appends to an output buffer. Both are proved
 against the specifications in MustacheParser and MustacheRenderer.
 */
module MustacheEngine {
  import opened MustacheTemplate
  import MustacheParser
  import opened MustacheRenderer

  /** Cursor over the NUL-terminated template text. */
  class Cursor {
    const data: string
    var pos: nat
    var frag: nat

    constructor (s: string)
      ensures data == s && pos == 0 && frag == 0
    {
      data, pos, frag := s, 0, 0;
    }

    /** Reads the character at the cursor, which may be the terminator, and moves on. */
    method Next() returns (ch: char)
      requires pos <= |data|
      modifies this`pos
      ensures ch == MustacheParser.CharAt(data, old(pos)) && pos == old(pos) + 1
    {
      ch := if pos < |data| then data[pos] else '\0';
      pos := pos + 1;
    }

    method EatSpace()
      requires pos <= |data|
      modifies this`pos
      ensures pos == MustacheParser.SkipSpace(data, old(pos))
    {
      while pos < |data| && MustacheParser.IsSpace(data[pos])
        invariant old(pos) <= pos <= |data|
        invariant MustacheParser.SkipSpace(data, pos) == MustacheParser.SkipSpace(data, old(pos))
      {
        pos := pos + 1;
      }
    }

    /** A name and its two closing braces; false stands for the exceptions thrown. */
    method ToLastIndex(extra: string) returns (ok: bool, start: nat, last: nat)
      requires pos <= |data|
      modifies this`pos
      ensures var n := MustacheParser.ReadName(data, old(pos), extra);
              ok == n.GoodName? && (ok ==> n == MustacheParser.GoodName(start, last, pos))
    {
      EatSpace();
      ok, start, last := false, pos, pos;
      var n := Next();
      if !MustacheParser.IsNameStart(n) { return; }
      while pos < |data| && MustacheParser.IsNameChar(data[pos], extra)
        invariant start < pos <= |data|
        invariant MustacheParser.SkipName(data, pos, extra) == MustacheParser.SkipName(data, start + 1, extra)
      {
        pos := pos + 1;
      }
      last := pos;
      EatSpace();
      n := Next();
      if n != '}' { return; }
      n := Next();
      ok := n == '}';
    }
  }

  /** Output that is only ever appended to. */
  class OutputBuffer {
    var text: string

    constructor ()
      ensures text == ""
    {
      text := "";
    }

    method Append(s: string)
      modifies this
      ensures text == old(text) + s
    {
      text := text + s;
    }
  }

  class Mustache {
    const body: string
    var actions: seq<Action>
    var fragments: seq<Fragment>

    constructor (s: string)
      ensures body == s && actions == [] && fragments == []
    {
      body, actions, fragments := s, [], [];
    }

    function Compiled(): Template
      reads this
    {
      Template(body, actions, fragments)
    }

    ghost function StateWith(p: Cursor, blocks: seq<nat>): MustacheParser.State
      reads this, p
    {
      MustacheParser.State(p.pos, p.frag, actions, fragments, blocks)
    }

    /** The tag kinds that read a name with the shared helper and push one action. */
    method PushNamed(p: Cursor, tag: ActionType, extra: string) returns (ok: bool)
      requires p.data == body && p.pos <= |body|
      modifies this`actions, p
      ensures var n := MustacheParser.ReadName(body, old(p.pos), extra);
              && ok == n.GoodName?
              && (ok ==> p.pos == p.frag == n.next && actions == old(actions) + [Action(tag, n.start, n.last, 0)])
              && (!ok ==> actions == old(actions))
    {
      var start, last;
      ok, start, last := p.ToLastIndex(extra);
      if ok {
        actions := actions + [Action(tag, start, last, 0)];
        p.frag := p.pos;
      }
    }

    /** Reads one tag; false stands for the exceptions thrown. */
    method ReadTag(p: Cursor, blocks: seq<nat>) returns (ok: bool, open: seq<nat>)
      requires p.data == body && p.pos <= |body|
      requires MustacheParser.BlocksInRange(StateWith(p, blocks))
               && MustacheParser.NamesInRange(body, StateWith(p, blocks))
      modifies this`actions, p
      ensures var r := MustacheParser.ReadTag(body, old(StateWith(p, blocks)));
              ok == r.Accepted? && (ok ==> StateWith(p, open) == r.value)
    {
      hide MustacheParser.ReadName, MustacheParser.SkipSpace, MustacheParser.SkipComment;
      p.EatSpace();
      var tok := if p.pos < |body| then body[p.pos] else '\0';
      open := blocks;
      if tok == '#' || tok == '^' {
        p.pos := p.pos + 1;
        open := blocks + [|actions|];
        ok := PushNamed(p, if tok == '#' then OpenBlock else ElseBlock, "_");
      } else if tok == '/' {
        ok, open := ReadClose(p, blocks);
      } else if tok == '!' {
        ok := ReadComment(p, blocks);
      } else if tok == '>' {
        p.pos := p.pos + 1;
        ok := PushNamed(p, Partial, "/._");
      } else if tok == '{' {
        p.pos := p.pos + 1;
        ok := PushNamed(p, UnEscapeTag, "_");
        if ok {
          var brace := p.Next();
          ok, p.frag := brace == '}', p.pos;
        }
      } else if tok == '&' {
        p.pos := p.pos + 1;
        ok := PushNamed(p, UnEscapeTag, "_");
      } else if tok == '=' {
        ok := false;
      } else {
        ok := PushNamed(p, Tag, "_");
      }
    }

    method ReadClose(p: Cursor, blocks: seq<nat>) returns (ok: bool, open: seq<nat>)
      requires p.data == body && p.pos < |body|
      requires MustacheParser.BlocksInRange(StateWith(p, blocks))
               && MustacheParser.NamesInRange(body, StateWith(p, blocks))
      modifies this`actions, p
      ensures var r := MustacheParser.Close(body, old(StateWith(p, blocks)), old(p.pos) + 1);
              ok == r.Accepted? && (ok ==> StateWith(p, open) == r.value)
    {
      ok, open := false, blocks;
      if |blocks| == 0 { return; }
      var opener := blocks[|blocks| - 1];
      var openTag := body[actions[opener].first..actions[opener].last];
      p.pos := p.pos + 1;
      var start, last;
      ok, start, last := p.ToLastIndex("_");
      if !ok { return; }
      ok := openTag == body[start..last];
      if ok {
        actions := actions + [Action(CloseBlock, start, last, opener)];
        open := blocks[..|blocks| - 1];
        p.frag := p.pos;
      }
    }

    method ReadComment(p: Cursor, ghost blocks: seq<nat>) returns (ok: bool)
      requires p.data == body && p.pos < |body|
      modifies this`actions, p
      ensures var r := MustacheParser.Comment(body, old(StateWith(p, blocks)), old(p.pos) + 1);
              ok == r.Accepted? && (ok ==> StateWith(p, blocks) == r.value)
    {
      p.pos := p.pos + 1;
      var start := p.pos;
      while p.pos < |body| && body[p.pos] != '}' && MustacheParser.Peek(body, p.pos + 1) != '}'
        invariant start <= p.pos <= |body| && actions == old(actions)
        invariant MustacheParser.SkipComment(body, p.pos) == MustacheParser.SkipComment(body, start)
      {
        p.pos := p.pos + 1;
      }
      assert p.pos == MustacheParser.SkipComment(body, start);
      var ch := p.Next();
      ok := ch == '}' || MustacheParser.Peek(body, p.pos) == '}';
      if ok {
        actions := actions + [Action(Ignore, start, p.pos, 0)];
        p.pos := p.pos + 2; // two characters are dropped unseen
        p.frag := p.pos;
      }
    }

    /** Compiles the body; false stands for the exceptions thrown. */
    method Parse() returns (ok: bool)
      requires actions == [] && fragments == []
      modifies this
      ensures ok == MustacheParser.Parse(body).Accepted?
      ensures ok ==> Compiled() == MustacheParser.Parse(body).value
    {
      hide MustacheParser.TagAtCursor, MustacheParser.Finish, MustacheParser.Inv;
      var p := new Cursor(body);
      var blocks: seq<nat> := [];
      assert StateWith(p, blocks) == MustacheParser.START;
      MustacheParser.StartInv(body);
      while p.pos < |body|
        invariant p.data == body && fresh(p)
        invariant MustacheParser.Inv(body, StateWith(p, blocks))
        invariant MustacheParser.Scan(body, StateWith(p, blocks)) == MustacheParser.Parse(body)
        decreases |body| - p.pos
      {
        ok, blocks := ParseRound(p, blocks);
        if !ok { return; }
      }
      ok := FinishParse(p, blocks);
    }

    /** One character, or a fragment and the tag after it. */
    method ParseRound(p: Cursor, blocks: seq<nat>) returns (ok: bool, open: seq<nat>)
      requires p.data == body && p.pos < |body| && MustacheParser.Inv(body, StateWith(p, blocks))
      modifies this, p
      ensures ok ==> MustacheParser.Inv(body, StateWith(p, open)) && p.pos > old(p.pos)
      ensures var r := MustacheParser.Scan(body, old(StateWith(p, blocks)));
              if ok then MustacheParser.Scan(body, StateWith(p, open)) == r else r.Rejected?
    {
      hide MustacheParser.Scan, MustacheParser.ReadTag, MustacheParser.Inv;
      ghost var before := StateWith(p, blocks);
      MustacheParser.BlocksAndNames(body, before);
      ok, open := true, blocks;
      var tok := p.Next();
      if tok == '{' && MustacheParser.Peek(body, p.pos) == '{' {
        fragments := fragments + [Fragment(p.frag, p.pos - 1)];
        p.pos := p.pos + 1;
        ok, open := ReadTag(p, blocks);
        if ok {
          MustacheParser.ScansTag(body, before);
          MustacheParser.TagKeepsInv(body, before);
        } else {
          MustacheParser.ScanFails(body, before);
        }
      } else {
        MustacheParser.ScansOne(body, before);
      }
    }

    method FinishParse(p: Cursor, blocks: seq<nat>) returns (ok: bool)
      modifies this`fragments
      ensures var r := MustacheParser.Finish(body, old(StateWith(p, blocks)));
              ok == r.Accepted? && (ok ==> Compiled() == r.value)
    {
      if blocks != [] { return false; }
      if p.pos != p.frag {
        fragments := fragments + [Fragment(p.frag, p.pos)];
      }
      if |actions| > 0 {
        for i := 0 to |actions| - 1
          invariant forall j :: 0 <= j < i ==> !MustacheParser.BadElse(actions, j)
        {
          if actions[i].tag == ElseBlock && actions[i + 1].tag != CloseBlock {
            assert MustacheParser.BadElse(actions, i);
            return false;
          }
        }
      }
      ok := true;
    }

    // ----- Rendering -----

    ghost predicate Ready()
      reads this
    {
      InBounds(Compiled()) && Renderable(CodeOf(Compiled()))
    }

    method RenderFragment(out: OutputBuffer, index: nat)
      requires Ready() && index < |fragments|
      modifies out
      ensures out.text == old(out.text) + CodeOf(Compiled()).texts[index]
    {
      var f := fragments[index];
      if f.first != f.second {
        out.Append(body[f.first..f.second]);
      }
    }

    /** The action `index`; `i` is where it leaves the walk, and false stands for an exception. */
    method RenderTag(out: OutputBuffer, env: Env, ctx: Value, index: nat) returns (ok: bool, i: nat)
      requires Ready() && index < |actions|
      modifies out
      ensures Wrote(old(out.text), out.text, ok, i, WalkTag(CodeOf(Compiled()), env, ctx, index))
      decreases |fragments| - index, 2
    {
      ghost var c := CodeOf(Compiled());
      var act := actions[index];
      var name := body[act.first..act.last];
      ok, i := true, index;
      match act.tag
      case CloseBlock =>
      case Ignore =>
      case Partial =>
        var r := env.partial(name, ctx);
        out.Append(r.out);
        ok := r.Done?;
      case Tag =>
        ok := RenderVariable(out, env, ctx, name, true);
      case UnEscapeTag =>
        ok := RenderVariable(out, env, ctx, name, false);
      case ElseBlock =>
        assert ElseIsClosed(c, index);
        var val := env.lookup(ctx, name);
        if val.NotAnObject? { ok := false; return; }
        i := index + 1;
        if IsEmpty(val) { RenderFragment(out, i); }
      case OpenBlock =>
        var val := env.lookup(ctx, name);
        if val.NotAnObject? { ok := false; return; }
        if IsEmpty(val) {
          i := SkipToClose(name, index);
        } else if val.value.Array? {
          ok, i := RenderEachElement(out, env, val.value.elements, index);
        } else {
          ok, i := RenderInternal(out, env, val.value, index, name);
        }
    }

    /** The loop over an empty section: to the next closing tag of this name. */
    method SkipToClose(name: string, index: nat) returns (i: nat)
      requires Ready() && index < |actions|
      ensures i == FindClose(CodeOf(Compiled()), name, index)
    {
      ghost var c := CodeOf(Compiled());
      i := index;
      while i < |actions| && !(SameName(body[actions[i].first..actions[i].last], name) && actions[i].tag == CloseBlock)
        invariant index <= i <= |actions| && FindClose(c, name, i) == FindClose(c, name, index)
      {
        i := i + 1;
      }
    }

    method RenderVariable(out: OutputBuffer, env: Env, ctx: Value, name: string, escaped: bool) returns (ok: bool)
      modifies out
      ensures var r := RenderLeaf(if escaped then Tag else UnEscapeTag, name, env, ctx);
              ok == r.Done? && out.text == old(out.text) + r.out
    {
      ok := true;
      match env.lookup(ctx, name)
      case NotAnObject => ok := false;
      case Missing => out.Append("false");
      case Found(Bool(b)) => out.Append(if b then "true" else "false");
      case Found(Number(text)) => out.Append(text);
      case Found(Str(s)) =>
        if escaped { EscapeTo(out, s); } else { out.Append(s); }
      case Found(_) => ok := false;
    }

    method EscapeTo(out: OutputBuffer, s: string)
      modifies out
      ensures out.text == old(out.text) + Escape(s)
    {
      assert s[0..] == s;
      for i := 0 to |s|
        invariant old(out.text) + Escape(s) == out.text + Escape(s[i..])
      {
        assert s[i..][1..] == s[i + 1..];
        assert out.text + (EscapeChar(s[i]) + Escape(s[i + 1..])) == out.text + EscapeChar(s[i]) + Escape(s[i + 1..]);
        EscapeCharTo(out, s[i]);
      }
    }

    method EscapeCharTo(out: OutputBuffer, ch: char)
      modifies out
      ensures out.text == old(out.text) + EscapeChar(ch)
    {
      match ch
      case '&' => out.Append("&amp;");
      case '<' => out.Append("&lt;");
      case '>' => out.Append("&gt;");
      case '"' => out.Append("&quot;");
      case '\'' => out.Append("&#39;");
      case '/' => out.Append("&#x2f;");
      case _ => out.Append([ch]);
    }

    method RenderEachElement(out: OutputBuffer, env: Env, es: seq<Value>, index: nat) returns (ok: bool, id: nat)
      requires Ready() && index < |actions|
      modifies out
      ensures Wrote(old(out.text), out.text, ok, id, WalkEach(CodeOf(Compiled()), env, es, index, index))
      decreases |fragments| - index, 1
    {
      hide Walk, WalkTag, WalkEach, CodeOf, InBounds;
      ghost var c := CodeOf(Compiled());
      CodeNames(Compiled());
      ok, id := true, index;
      assert es[0..] == es;
      for k := 0 to |es|
        invariant index <= id
        invariant Before(old(out.text), WalkEach(c, env, es, index, index))
                  == Before(out.text, WalkEach(c, env, es[k..], index, id))
      {
        EachRound(c, env, es[k..], index, id, out.text);
        assert es[k..][1..] == es[k + 1..];
        ok, id := RenderInternal(out, env, es[k], index + 1, body[actions[index].first..actions[index].last]);
        if !ok { return; }
      }
      EachEnds(c, env, es[|es|..], index, id);
    }

    method RenderInternal(out: OutputBuffer, env: Env, ctx: Value, start: nat, stop: string)
      returns (ok: bool, index: nat)
      requires Ready()
      modifies out
      ensures Wrote(old(out.text), out.text, ok, index, Walk(CodeOf(Compiled()), env, ctx, start, stop))
      decreases |fragments| - start, if AtStop(CodeOf(Compiled()), start, stop) then 0 else 3
    {
      hide Walk, WalkTag, CodeOf, InBounds, SameName;
      ghost var c := CodeOf(Compiled());
      ok, index := true, start;
      while index < |fragments|
        invariant start <= index
        invariant index > start ==> !AtStop(c, start, stop)
        invariant Before(old(out.text), Walk(c, env, ctx, start, stop))
                  == Before(out.text, Walk(c, env, ctx, index, stop))
        decreases |fragments| - index
      {
        WalkRound(c, env, ctx, index, stop, out.text);
        CodeNames(Compiled());
        RenderFragment(out, index);
        if index < |actions| {
          if stop != "" && SameName(body[actions[index].first..actions[index].last], stop) { return; }
          ok, index := RenderTag(out, env, ctx, index);
          if !ok { return; }
        }
        index := index + 1;
      }
      WalkEnds(c, env, ctx, index, stop);
    }

    /** Renders the template; false stands for an exception, with what was written before it. */
    method Render(out: OutputBuffer, env: Env, ctx: Value) returns (ok: bool)
      requires Ready()
      modifies out
      ensures var r := MustacheRenderer.Render(CodeOf(Compiled()), env, ctx);
              ok == r.Done? && out.text == old(out.text) + r.out
    {
      var index;
      ok, index := RenderInternal(out, env, ctx, 0, "");
    }
  }

  lemma CodeNames(t: Template)
    requires InBounds(t)
    ensures var c := CodeOf(t);
            && |c.texts| == |t.fragments| && |c.ops| == |t.actions|
            && forall i :: 0 <= i < |t.actions| ==>
                 && t.actions[i].first < t.actions[i].last <= |t.body|
                 && c.ops[i].name == t.body[t.actions[i].first..t.actions[i].last]
  {
  }

  lemma WalkEnds(c: Code, env: Env, ctx: Value, index: nat, stop: string)
    requires Renderable(c) && index >= |c.texts|
    ensures Walk(c, env, ctx, index, stop) == At("", index)
  {
  }

  lemma EachEnds(c: Code, env: Env, es: seq<Value>, index: nat, id: nat)
    requires Renderable(c) && index < |c.ops| && index <= id && es == []
    ensures WalkEach(c, env, es, index, id) == At("", id)
  {
  }

  /** One element of a block, behind text that is already written. */
  lemma EachRound(c: Code, env: Env, es: seq<Value>, index: nat, id: nat, text: string)
    requires Renderable(c) && index < |c.ops| && index <= id && es != []
    ensures var f := Before(text, WalkEach(c, env, es, index, id));
            match Walk(c, env, es[0], index + 1, c.ops[index].name)
            case Stopped(out) => f == Stopped(text + out)
            case At(out, i) => f == Before(text + out, WalkEach(c, env, es[1..], index, i))
  {
    hide Walk;
    match Walk(c, env, es[0], index + 1, c.ops[index].name)
    case Stopped(out) =>
    case At(out, i) =>
      var rest := WalkEach(c, env, es[1..], index, i).out;
      assert text + (out + rest) == text + out + rest;
  }

  /** One round of the walk, behind text that is already written. */
  lemma WalkRound(c: Code, env: Env, ctx: Value, index: nat, stop: string, text: string)
    requires Renderable(c) && index < |c.texts|
    ensures var f := Before(text, Walk(c, env, ctx, index, stop));
            if AtStop(c, index, stop) then f == At(text + c.texts[index], index)
            else if index >= |c.ops| then f == Before(text + c.texts[index], Walk(c, env, ctx, index + 1, stop))
            else match WalkTag(c, env, ctx, index)
                 case Stopped(out) => f == Stopped(text + c.texts[index] + out)
                 case At(out, i) => f == Before(text + c.texts[index] + out, Walk(c, env, ctx, i + 1, stop))
  {
    hide WalkTag;
    var t := c.texts[index];
    if !AtStop(c, index, stop) && index < |c.ops| {
      match WalkTag(c, env, ctx, index)
      case Stopped(out) =>
      case At(out, i) =>
        var rest := Walk(c, env, ctx, i + 1, stop).out;
        assert text + (t + (out + rest)) == text + t + out + rest;
    } else if !AtStop(c, index, stop) {
      var rest := Walk(c, env, ctx, index + 1, stop).out;
      assert text + (t + rest) == text + t + rest;
    }
  }

  /** A method that ran the flow has written its output, and stands at its index unless it threw. */
  ghost predicate Wrote(before: string, now: string, ok: bool, index: nat, f: Flow) {
    now == before + f.out && (if ok then f.At? && f.index == index else f.Stopped?)
  }
}
