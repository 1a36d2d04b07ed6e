/**
 The template compiler: a scan over the text that cuts it into fragments and actions and keeps
 a stack of open blocks. Every accepted text yields a balanced, renderable action list.
 */
module MustacheParser {
  import opened MustacheTemplate

  // ----- Characters, as <cctype> classifies them in the "C" locale -----

  predicate IsSpace(ch: char) { ch == ' ' || '\t' <= ch <= '\r' }

  predicate IsAlpha(ch: char) { 'a' <= ch <= 'z' || 'A' <= ch <= 'Z' }

  predicate IsNameStart(ch: char) { IsAlpha(ch) || ch == '_' }

  /** `strchr` also finds the terminator of its first argument, so a NUL counts as a name character. */
  predicate IsNameChar(ch: char, extra: string) {
    IsAlpha(ch) || '0' <= ch <= '9' || ch in extra || ch == '\0'
  }

  /** The character at `p`, or NUL behind the end. */
  function Peek(s: string, p: nat): char {
    if p < |s| then s[p] else '\0'
  }

  /** The character at `p`, read without looking at the length: the terminator is the last there is. */
  function CharAt(s: string, p: nat): char
    requires p <= |s|
  {
    Peek(s, p)
  }

  function SkipSpace(s: string, p: nat): (q: nat)
    requires p <= |s|
    ensures p <= q <= |s|
    decreases |s| - p
  {
    if p < |s| && IsSpace(s[p]) then SkipSpace(s, p + 1) else p
  }

  function SkipName(s: string, p: nat, extra: string): (q: nat)
    requires p <= |s|
    ensures p <= q <= |s|
    decreases |s| - p
  {
    if p < |s| && IsNameChar(s[p], extra) then SkipName(s, p + 1, extra) else p
  }

  datatype NameResult = BadName | GoodName(start: nat, last: nat, next: nat)

  /** `  name  }}`: optional space, a name, optional space and two closing braces. */
  function ReadName(s: string, p: nat, extra: string): (r: NameResult)
    requires p <= |s|
    ensures r.GoodName? ==> p <= r.start < r.last && r.last + 2 <= r.next <= |s|
  {
    var start := SkipSpace(s, p);
    if !IsNameStart(CharAt(s, start)) then BadName else
      var last := SkipName(s, start + 1, extra);
      var q := SkipSpace(s, last);
      if CharAt(s, q) != '}' || CharAt(s, q + 1) != '}' then BadName
      else GoodName(start, last, q + 2)
  }

  /** Where a comment scan stops: at a closing brace, or one character before one. */
  function SkipComment(s: string, p: nat): (q: nat)
    requires p <= |s|
    ensures p <= q <= |s|
    decreases |s| - p
  {
    if p < |s| && s[p] != '}' && Peek(s, p + 1) != '}' then SkipComment(s, p + 1) else p
  }

  // ----- Compiler state -----

  /** Parser cursor, fragment start, the arrays built so far, and the open blocks. */
  datatype State = State(pos: nat, frag: nat, actions: seq<Action>, fragments: seq<Fragment>, blocks: seq<nat>)

  datatype Result<T> = Rejected | Accepted(value: T)

  function Emit(st: State, tag: ActionType, n: NameResult): Result<State>
    requires n.GoodName?
  {
    Accepted(st.(pos := n.next, frag := n.next, actions := st.actions + [Action(tag, n.start, n.last, 0)]))
  }

  function Open(st: State, tag: ActionType, n: NameResult): Result<State>
    requires n.GoodName?
  {
    Accepted(st.(pos := n.next, frag := n.next, blocks := st.blocks + [|st.actions|],
                 actions := st.actions + [Action(tag, n.start, n.last, 0)]))
  }

  predicate BlocksInRange(st: State) {
    forall i :: 0 <= i < |st.blocks| ==> st.blocks[i] < |st.actions|
  }

  predicate NamesInRange(s: string, st: State) {
    forall i :: 0 <= i < |st.actions| ==> st.actions[i].first < st.actions[i].last <= |s|
  }

  /** Close the innermost block, which must have the same name. */
  function Close(s: string, st: State, p: nat): Result<State>
    requires p <= |s| && BlocksInRange(st) && NamesInRange(s, st)
  {
    if st.blocks == [] then Rejected else
      var opener := st.blocks[|st.blocks| - 1];
      var n := ReadName(s, p, "_");
      if n.BadName? then Rejected else
        var a := st.actions[opener];
        if s[a.first..a.last] != s[n.start..n.last] then Rejected
        else Accepted(st.(pos := n.next, frag := n.next, blocks := st.blocks[..|st.blocks| - 1],
                          actions := st.actions + [Action(CloseBlock, n.start, n.last, opener)]))
  }

  /** A comment ends two characters after its last one, wherever that is. */
  function Comment(s: string, st: State, p: nat): Result<State>
    requires p <= |s|
  {
    var q := SkipComment(s, p);
    if CharAt(s, q) != '}' && Peek(s, q + 1) != '}' then Rejected
    else Accepted(st.(pos := q + 3, frag := q + 3, actions := st.actions + [Action(Ignore, p, q + 1, 0)]))
  }

  /** Read one tag; `st.pos` stands after the two opening braces. */
  function ReadTag(s: string, st: State): Result<State>
    requires st.pos <= |s| && BlocksInRange(st) && NamesInRange(s, st)
  {
    var p := SkipSpace(s, st.pos);
    var tok := Peek(s, p);
    if tok == '#' then
      var n := ReadName(s, p + 1, "_"); if n.BadName? then Rejected else Open(st, OpenBlock, n)
    else if tok == '/' then Close(s, st, p + 1)
    else if tok == '^' then
      var n := ReadName(s, p + 1, "_"); if n.BadName? then Rejected else Open(st, ElseBlock, n)
    else if tok == '!' then Comment(s, st, p + 1)
    else if tok == '>' then
      var n := ReadName(s, p + 1, "/._"); if n.BadName? then Rejected else Emit(st, Partial, n)
    else if tok == '{' then
      var n := ReadName(s, p + 1, "_");
      if n.BadName? || CharAt(s, n.next) != '}' then Rejected
      else Emit(st, UnEscapeTag, n.(next := n.next + 1))
    else if tok == '&' then
      var n := ReadName(s, p + 1, "_"); if n.BadName? then Rejected else Emit(st, UnEscapeTag, n)
    else if tok == '=' then Rejected
    else
      var n := ReadName(s, p, "_"); if n.BadName? then Rejected else Emit(st, Tag, n)
  }

  /** The end of the text: nothing may stay open, the text after the last tag becomes a fragment,
      and an inverted section may not hold tags. */
  function Finish(s: string, st: State): Result<Template> {
    var fragments := if st.pos != st.frag then st.fragments + [Fragment(st.frag, st.pos)] else st.fragments;
    if st.blocks != [] || exists i :: 0 <= i < |st.actions| - 1 && BadElse(st.actions, i)
    then Rejected
    else Accepted(Template(s, st.actions, fragments))
  }

  predicate BadElse(actions: seq<Action>, i: nat)
    requires i + 1 < |actions|
  {
    actions[i].tag == ElseBlock && actions[i + 1].tag != CloseBlock
  }

  // ----- What holds between two tags -----

  /** Fragments and actions alternate in source order, strictly inside the text. */
  predicate Interleaved(actions: seq<Action>, fragments: seq<Fragment>) {
    && (forall i :: 0 <= i < |actions| && i < |fragments| ==> fragments[i].second + 2 <= actions[i].first)
    && (forall i :: 0 < i < |fragments| && i <= |actions| ==> actions[i - 1].last < fragments[i].first)
  }

  predicate FragmentsInRange(s: string, fragments: seq<Fragment>) {
    forall i :: 0 <= i < |fragments| ==> fragments[i].first <= fragments[i].second <= |s|
  }

  /** Both arrays have the same length between two tags, and the cursor is past all of them. */
  predicate Lexed(s: string, st: State) {
    && NamesInRange(s, st) && FragmentsInRange(s, st.fragments) && Interleaved(st.actions, st.fragments)
    && st.frag <= st.pos && (st.pos <= |s| || st.frag == st.pos)
    && (|st.actions| > 0 ==> st.actions[|st.actions| - 1].last < st.frag)
  }

  /** The vector of open blocks, innermost last, as a stack. */
  function AsBlocks(blocks: seq<nat>): Blocks {
    if blocks == [] then Closed
    else Within(blocks[|blocks| - 1], AsBlocks(blocks[..|blocks| - 1]))
  }

  function OpsOf(s: string, st: State): Code
    requires NamesInRange(s, st)
  {
    Code([], seq(|st.actions|, i requires 0 <= i < |st.actions| =>
      Op(st.actions[i].tag, s[st.actions[i].first..st.actions[i].last], st.actions[i].pos)))
  }

  /** The stack of the compiler is the stack that the action list itself determines. */
  predicate Stacked(s: string, st: State)
    requires NamesInRange(s, st)
  {
    BlocksInRange(st) && OpenBlocks(OpsOf(s, st), |st.actions|) == AsBlocks(st.blocks)
  }

  predicate Inv(s: string, st: State) {
    Lexed(s, st) && |st.fragments| == |st.actions| && Stacked(s, st)
  }

  lemma {:induction false} OpenBlocksLocal(c: Code, d: Code, n: nat)
    requires n <= |c.ops| && n <= |d.ops| && c.ops[..n] == d.ops[..n]
    ensures OpenBlocks(c, n) == OpenBlocks(d, n)
  {
    if n > 0 {
      assert c.ops[..n - 1] == c.ops[..n][..n - 1] == d.ops[..n][..n - 1] == d.ops[..n - 1];
      OpenBlocksLocal(c, d, n - 1);
      assert forall i :: 0 <= i < n ==> c.ops[i] == c.ops[..n][i] == d.ops[..n][i] == d.ops[i];
    }
  }

  /** How one action moves the vector of open blocks. */
  predicate StackMove(s: string, st: State, a: Action, blocks: seq<nat>)
    requires NamesInRange(s, st) && BlocksInRange(st) && a.first < a.last <= |s|
  {
    if a.tag == OpenBlock || a.tag == ElseBlock then blocks == st.blocks + [|st.actions|]
    else if a.tag != CloseBlock then blocks == st.blocks
    else
      && st.blocks != [] && blocks == st.blocks[..|st.blocks| - 1]
      && a.pos == st.blocks[|st.blocks| - 1]
      && s[st.actions[a.pos].first..st.actions[a.pos].last] == s[a.first..a.last]
  }

  /** `next` is `st` with one more action, taken from the text between the two cursors. */
  predicate Appends(s: string, st: State, next: State, a: Action)
    requires NamesInRange(s, st) && BlocksInRange(st)
  {
    && st.pos <= a.first < a.last <= |s| && a.last < next.pos
    && next == State(next.pos, next.pos, st.actions + [a], st.fragments, next.blocks)
    && StackMove(s, st, a, next.blocks)
  }

  lemma CloseAppends(s: string, st: State, p: nat)
    requires st.pos <= p <= |s| && BlocksInRange(st) && NamesInRange(s, st) && Close(s, st, p).Accepted?
    ensures var next := Close(s, st, p).value;
            |next.actions| == |st.actions| + 1 && Appends(s, st, next, next.actions[|st.actions|])
  {
    hide ReadName;
  }

  lemma CommentAppends(s: string, st: State, p: nat)
    requires st.pos <= p <= |s| && BlocksInRange(st) && NamesInRange(s, st) && Comment(s, st, p).Accepted?
    ensures var next := Comment(s, st, p).value;
            |next.actions| == |st.actions| + 1 && Appends(s, st, next, next.actions[|st.actions|])
  {
    hide SkipComment;
  }

  /** Reading a tag appends one action. */
  lemma ReadTagAppends(s: string, st: State)
    requires st.pos <= |s| && BlocksInRange(st) && NamesInRange(s, st) && ReadTag(s, st).Accepted?
    ensures var next := ReadTag(s, st).value;
            |next.actions| == |st.actions| + 1 && Appends(s, st, next, next.actions[|st.actions|])
  {
    hide ReadName, SkipSpace, Close, Comment;
    var p := SkipSpace(s, st.pos);
    var tok := Peek(s, p);
    if tok == '/' {
      CloseAppends(s, st, p + 1);
    } else if tok == '!' {
      CommentAppends(s, st, p + 1);
    }
  }

  lemma OpsGrow(s: string, st: State, a: Action, next: State)
    requires NamesInRange(s, st) && NamesInRange(s, next) && a.first < a.last <= |s| && next.actions == st.actions + [a]
    ensures var c, d, n := OpsOf(s, st), OpsOf(s, next), |st.actions|;
            && |c.ops| == n && |d.ops| == n + 1 && d.ops[..n] == c.ops
            && d.ops[n] == Op(a.tag, s[a.first..a.last], a.pos)
            && forall i :: 0 <= i < n ==> d.ops[i].name == s[st.actions[i].first..st.actions[i].last]
  {
    assert OpsOf(s, next).ops[..|st.actions|] == OpsOf(s, st).ops;
  }

  lemma StackKept(s: string, st: State, a: Action, next: State)
    requires NamesInRange(s, st) && Stacked(s, st) && a.first < a.last <= |s| && StackMove(s, st, a, next.blocks)
    requires next.actions == st.actions + [a] && NamesInRange(s, next)
    ensures Stacked(s, next)
  {
    hide OpsOf, AsBlocks;
    var c, d, n := OpsOf(s, st), OpsOf(s, next), |st.actions|;
    OpsGrow(s, st, a, next);
    assert c.ops[..n] == d.ops[..n];
    OpenBlocksLocal(c, d, n);
    NotMismatched(st.blocks);
    assert OpenBlocks(d, n + 1) == Advance(d, AsBlocks(st.blocks), n);
    hide OpenBlocks;
    StackAdvances(s, st, a, next.blocks, d);
  }

  lemma NotMismatched(blocks: seq<nat>)
    ensures !AsBlocks(blocks).Mismatch?
  {
  }

  /** The compiler's vector moves as the stack of open blocks does. */
  lemma StackAdvances(s: string, st: State, a: Action, blocks: seq<nat>, d: Code)
    requires NamesInRange(s, st) && BlocksInRange(st) && a.first < a.last <= |s| && StackMove(s, st, a, blocks)
    requires var n := |st.actions|;
             && |d.ops| == n + 1 && d.ops[n] == Op(a.tag, s[a.first..a.last], a.pos)
             && forall i :: 0 <= i < n ==> d.ops[i].name == s[st.actions[i].first..st.actions[i].last]
    ensures Advance(d, AsBlocks(st.blocks), |st.actions|) == AsBlocks(blocks)
  {
    if a.tag == OpenBlock || a.tag == ElseBlock {
      assert blocks[..|blocks| - 1] == st.blocks;
    }
  }

  /** The state after the tag that opens at the cursor. */
  function TagAtCursor(s: string, st: State): Result<State>
    requires st.pos + 2 <= |s| && BlocksInRange(st) && NamesInRange(s, st)
  {
    ReadTag(s, st.(fragments := st.fragments + [Fragment(st.frag, st.pos)], pos := st.pos + 2))
  }

  lemma TagKeepsLexed(s: string, st: State, next: State, a: Action)
    requires Lexed(s, st) && |st.fragments| == |st.actions| && st.pos + 2 <= a.first < a.last <= |s|
             && a.last < next.pos
    requires next == State(next.pos, next.pos, st.actions + [a],
                           st.fragments + [Fragment(st.frag, st.pos)], next.blocks)
    ensures Lexed(s, next)
  {
    hide Interleaved, FragmentsInRange, NamesInRange;
    GrowsInterleaved(st.actions, st.fragments, a, Fragment(st.frag, st.pos));
    GrowsInRange(s, st, next, a);
    assert next.actions[|next.actions| - 1] == a;
  }

  lemma GrowsInterleaved(actions: seq<Action>, fragments: seq<Fragment>, a: Action, f: Fragment)
    requires Interleaved(actions, fragments) && |fragments| == |actions| && f.second + 2 <= a.first
    requires |actions| > 0 ==> actions[|actions| - 1].last < f.first
    ensures Interleaved(actions + [a], fragments + [f])
  {
  }

  lemma GrowsInRange(s: string, st: State, next: State, a: Action)
    requires NamesInRange(s, st) && FragmentsInRange(s, st.fragments) && a.first < a.last <= |s|
    requires st.frag <= st.pos <= |s|
    requires next.actions == st.actions + [a] && next.fragments == st.fragments + [Fragment(st.frag, st.pos)]
    ensures NamesInRange(s, next) && FragmentsInRange(s, next.fragments)
  {
  }

  lemma TagKeepsInv(s: string, st: State)
    requires Inv(s, st) && st.pos + 2 <= |s| && TagAtCursor(s, st).Accepted?
    ensures Inv(s, TagAtCursor(s, st).value) && st.pos < TagAtCursor(s, st).value.pos
  {
    hide ReadTag, AsBlocks, OpenBlocks;
    var mid := st.(fragments := st.fragments + [Fragment(st.frag, st.pos)], pos := st.pos + 2);
    ReadTagAppends(s, mid);
    var next := ReadTag(s, mid).value;
    var a := next.actions[|st.actions|];
    TagKeepsLexed(s, st, next, a);
    assert StackMove(s, st, a, next.blocks);
    StackKept(s, st, a, next);
  }

  // ----- The scan -----

  function Scan(s: string, st: State): Result<Template>
    requires Inv(s, st)
    decreases |s| - st.pos
  {
    if st.pos >= |s| then Finish(s, st)
    else if s[st.pos] == '{' && Peek(s, st.pos + 1) == '{' then
      var next := TagAtCursor(s, st);
      if next.Rejected? then Rejected else
        TagKeepsInv(s, st);
        Scan(s, next.value)
    else Scan(s, st.(pos := st.pos + 1))
  }

  const START := State(0, 0, [], [], [])

  lemma StartInv(s: string)
    ensures Inv(s, START)
  {
  }

  function Parse(s: string): Result<Template> {
    Scan(s, START)
  }

  lemma BlocksAndNames(s: string, st: State)
    requires Inv(s, st)
    ensures BlocksInRange(st) && NamesInRange(s, st)
  {
  }

  // ----- One round of the scan -----

  lemma ScansTag(s: string, st: State)
    requires Inv(s, st) && st.pos + 2 <= |s| && s[st.pos] == '{' && s[st.pos + 1] == '{' && TagAtCursor(s, st).Accepted?
    ensures Inv(s, TagAtCursor(s, st).value) && Scan(s, st) == Scan(s, TagAtCursor(s, st).value)
  {
    TagKeepsInv(s, st);
    hide TagAtCursor, Inv;
  }

  lemma ScansOne(s: string, st: State)
    requires Inv(s, st) && st.pos < |s| && !(s[st.pos] == '{' && Peek(s, st.pos + 1) == '{')
    ensures Inv(s, st.(pos := st.pos + 1)) && Scan(s, st) == Scan(s, st.(pos := st.pos + 1))
  {
    MovesOn(s, st);
    hide TagAtCursor, Inv;
  }

  lemma MovesOn(s: string, st: State)
    requires Inv(s, st) && st.pos < |s|
    ensures Inv(s, st.(pos := st.pos + 1))
  {
    hide OpenBlocks, AsBlocks, Interleaved, FragmentsInRange;
    assert OpsOf(s, st.(pos := st.pos + 1)) == OpsOf(s, st);
  }

  lemma ScanFails(s: string, st: State)
    requires Inv(s, st) && st.pos + 2 <= |s| && s[st.pos] == '{' && s[st.pos + 1] == '{' && TagAtCursor(s, st).Rejected?
    ensures Scan(s, st).Rejected?
  {
    hide TagAtCursor, Inv;
  }

  // ----- Accepted templates -----

  /** What the compiler promises about a template it accepts. */
  predicate WellFormed(t: Template) {
    && InBounds(t) && Interleaved(t.actions, t.fragments)
    && Renderable(CodeOf(t)) && Balanced(CodeOf(t))
  }

  lemma {:induction false} ScanIsWellFormed(s: string, st: State)
    requires Inv(s, st) && Scan(s, st).Accepted?
    ensures Scan(s, st).value.body == s && WellFormed(Scan(s, st).value)
    decreases |s| - st.pos
  {
    hide TagAtCursor, OpenBlocks, AsBlocks;
    if st.pos >= |s| {
      FinishIsWellFormed(s, st);
    } else if s[st.pos] == '{' && Peek(s, st.pos + 1) == '{' {
      TagKeepsInv(s, st);
      ScanIsWellFormed(s, TagAtCursor(s, st).value);
    } else {
      ScanIsWellFormed(s, st.(pos := st.pos + 1));
    }
  }

  lemma FinishIsWellFormed(s: string, st: State)
    requires Inv(s, st) && st.pos >= |s| && Finish(s, st).Accepted?
    ensures Finish(s, st).value.body == s && WellFormed(Finish(s, st).value)
  {
    hide OpenBlocks, AsBlocks, ElseIsClosed, Interleaved;
    FinishIsLexed(s, st);
    FinishIsBalanced(s, st);
    FinishClosesElse(s, st);
    hide Inv, Balanced;
    NamesKeepLength(Finish(s, st).value);
  }

  lemma NamesKeepLength(t: Template)
    requires InBounds(t)
    ensures var c := CodeOf(t);
            && |c.ops| == |t.actions|
            && forall i :: 0 <= i < |c.ops| ==> |c.ops[i].name| == t.actions[i].last - t.actions[i].first
  {
  }

  lemma FinishInBounds(s: string, st: State)
    requires NamesInRange(s, st) && FragmentsInRange(s, st.fragments) && st.frag <= st.pos
    requires (st.pos <= |s| || st.frag == st.pos) && Finish(s, st).Accepted?
    ensures InBounds(Finish(s, st).value)
  {
  }

  lemma FinishInterleaved(s: string, st: State)
    requires Interleaved(st.actions, st.fragments) && |st.fragments| == |st.actions| && Finish(s, st).Accepted?
    requires |st.actions| > 0 ==> st.actions[|st.actions| - 1].last < st.frag
    ensures var t := Finish(s, st).value; Interleaved(t.actions, t.fragments)
  {
  }

  lemma FinishIsLexed(s: string, st: State)
    requires Lexed(s, st) && |st.fragments| == |st.actions| && st.pos >= |s| && Finish(s, st).Accepted?
    ensures var t := Finish(s, st).value; InBounds(t) && Interleaved(t.actions, t.fragments)
  {
    FinishInBounds(s, st);
    FinishInterleaved(s, st);
    hide Interleaved, InBounds, FragmentsInRange, NamesInRange;
  }

  lemma FinishIsBalanced(s: string, st: State)
    requires NamesInRange(s, st) && Stacked(s, st) && Finish(s, st).Accepted? && InBounds(Finish(s, st).value)
    ensures Balanced(CodeOf(Finish(s, st).value))
  {
    var c := CodeOf(Finish(s, st).value);
    assert c.ops == OpsOf(s, st).ops;
    OpenBlocksLocal(c, OpsOf(s, st), |st.actions|);
  }

  lemma FinishClosesElse(s: string, st: State)
    requires Finish(s, st).Accepted? && InBounds(Finish(s, st).value) && Balanced(CodeOf(Finish(s, st).value))
    ensures forall i: nat :: i < |st.actions| ==> ElseIsClosed(CodeOf(Finish(s, st).value), i)
  {
    var c := CodeOf(Finish(s, st).value);
    forall i: nat | i < |st.actions| ensures ElseIsClosed(c, i) {
      if i + 1 == |st.actions| { LastIsNotOpener(c); } else { assert !BadElse(st.actions, i); }
    }
  }

  lemma LastIsNotOpener(c: Code)
    requires Balanced(c) && |c.ops| > 0
    ensures c.ops[|c.ops| - 1].tag != ElseBlock
  {
  }

  /** Theorem: an accepted text is compiled to in-bounds, interleaved and balanced arrays. */
  lemma AcceptedIsWellFormed(s: string)
    requires Parse(s).Accepted?
    ensures Parse(s).value.body == s && WellFormed(Parse(s).value)
  {
    ScanIsWellFormed(s, START);
  }
}
