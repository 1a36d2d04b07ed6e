/**
 Trees of linked nodes and the values they stand for, and the two printers.
 */
module JsonTree {
  import opened Utf8
  import opened JsonNumber
  import opened JsonString
  import opened JsonText
  import opened JsonLinks
  import opened JsonNode

  /** The node `n`, with everything below it, stands for the value `v`. */
  ghost predicate Rep(S: set<Node>, n: Node, v: Json)
    reads S`children, S`keys
    decreases v
  {
    && n in S
    && match v
       case Null => n.tag == TagNull
       case Bool(b) => n.tag == TagBool && n.bool_ == b
       case Str(s) => n.tag == TagString && n.string_ == s
       case Num(num) => n.tag == TagNumber && n.number_ == num
       case Coll(isObject, kids) =>
         n.tag == (if isObject then TagObject else TagArray) && RepKids(S, n.children, n.keys, kids)
  }

  ghost predicate RepKids(S: set<Node>, cs: seq<Node>, ks: seq<Key>, kids: Kids)
    reads S`children, S`keys
    decreases kids
  {
    match kids
    case Nil => cs == [] && ks == []
    case Kid(key, v, next) =>
      cs != [] && ks != [] && ks[0] == key && Rep(S, cs[0], v) && RepKids(S, cs[1..], ks[1..], next)
  }

  /** What the links of a list say to someone who walks along it. */
  lemma WalkList(S: set<Node>, n: Node, i: nat)
    requires Good(S) && n in S && i < |n.children|
    ensures |n.keys| == |n.children| && n.IsColl()
    ensures var c := n.children[i];
            && c in S && c != n && c.parent == n && c.key == n.keys[i] && c.key.Key? == (n.tag == TagObject)
            && c.prev == (if i == 0 then null else n.children[i - 1])
            && c.next == (if i + 1 == |n.children| then null else n.children[i + 1])
    ensures n.head == n.children[0] && n.tail == n.children[|n.children| - 1]
    ensures i > 0 ==> n.children[i] != n.children[0]
    ensures i + 1 < |n.children| ==> n.children[i + 1] != n.children[i]
  {
    hide Inv;
    ListAt(Snapshot(S), n, i);
  }

  lemma EmptyList(S: set<Node>, n: Node)
    requires Good(S) && n in S && n.children == []
    ensures n.head == null && n.tail == null
  {
    hide Inv;
    Both(Snapshot(S), n);
  }

  /** The children from `i` on, and the values they stand for. */
  ghost predicate RepFrom(S: set<Node>, n: Node, i: nat, kids: Kids)
    requires n in S
    reads S`children, S`keys
  {
    i <= |n.children| && i <= |n.keys| && RepKids(S, n.children[i..], n.keys[i..], kids)
  }

  lemma RepNext(S: set<Node>, n: Node, i: nat, kids: Kids)
    requires n in S && RepFrom(S, n, i, kids)
    ensures kids.Nil? <==> i == |n.children|
    ensures kids.Kid? ==>
              && i < |n.children| && i < |n.keys| && n.keys[i] == kids.key && Rep(S, n.children[i], kids.value)
              && RepFrom(S, n, i + 1, kids.next)
  {
    if kids.Kid? {
      assert n.children[i..][1..] == n.children[i + 1..] && n.keys[i..][1..] == n.keys[i + 1..];
    }
  }

  predicate KeyValid(k: Key) { k.Key? ==> Validate(k.text) }

  /** A walk along the children and the values they stand for: its start, a step, and its end. */
  lemma WalkStart(S: set<Node>, n: Node, v: Json)
    requires Good(S) && Rep(S, n, v) && v.Coll?
    ensures n in S && RepFrom(S, n, 0, v.kids)
    ensures n.head == if |n.children| == 0 then null else n.children[0]
  {
    hide Inv;
    assert n.children[0..] == n.children && n.keys[0..] == n.keys;
    if n.children == [] { EmptyList(S, n); } else { WalkList(S, n, 0); }
  }

  lemma WalkStep(S: set<Node>, n: Node, i: nat, kids: Kids)
    requires Good(S) && n in S && i < |n.children| && RepFrom(S, n, i, kids)
    ensures kids.Kid? && RepFrom(S, n, i + 1, kids.next) && (kids.next.Nil? <==> i + 1 == |n.children|)
    ensures var c := n.children[i];
            && c in S && Rep(S, c, kids.value) && c.key == kids.key && c.key.Key? == (n.tag == TagObject)
            && c.next == if i + 1 == |n.children| then null else n.children[i + 1]
    ensures ValidKids(kids) == (KeyValid(kids.key) && ValidStrings(kids.value) && ValidKids(kids.next))
  {
    hide Inv, Rep;
    RepNext(S, n, i, kids);
    RepNext(S, n, i + 1, kids.next);
    WalkList(S, n, i);
  }

  lemma WalkEnd(S: set<Node>, n: Node, kids: Kids)
    requires n in S && RepFrom(S, n, |n.children|, kids)
    ensures kids.Nil? && ValidKids(kids)
  {
    RepNext(S, n, |n.children|, kids);
  }

  // ----- Printing -----

  /** The output stream. */
  class Sink {
    var data: Bytes

    constructor ()
      ensures data == []
    {
      data := [];
    }

    method Put(bytes: Bytes)
      modifies this
      ensures data == old(data) + bytes
    {
      data := data + bytes;
    }
  }

  /** One character; the cursor moves behind it. */
  method EmitPieceTo(out: Sink, str: Bytes, p: nat) returns (q: nat)
    requires p < |str| && ValidateChar(str[p..]) != 0
    modifies out
    ensures q == p + ValidateChar(str[p..]) <= |str| && out.data == old(out.data) + EmitPiece(str[p..])
  {
    var c := str[p];
    q := p + 1;
    if c == QUOTE || c == BACKSLASH {
      out.Put([BACKSLASH, c]);
    } else if c == 8 {
      out.Put([BACKSLASH, 0x62]);
    } else if c == 12 {
      out.Put([BACKSLASH, 0x66]);
    } else if c == 10 {
      out.Put([BACKSLASH, 0x6E]);
    } else if c == 13 {
      out.Put([BACKSLASH, 0x72]);
    } else if c == 9 {
      out.Put([BACKSLASH, 0x74]);
    } else if c < 0x1F {
      out.Put([BACKSLASH, LETTER_U] + WriteHex16(c));
    } else {
      var len := ValidateChar(str[p..]);
      q := p + len;
      out.Put(str[p..q]);
      assert str[p..q] == str[p..][..len];
    }
  }

  /** Prints a string literal; false stands for the exception on invalid UTF-8. */
  method EmitStringTo(out: Sink, str: Bytes) returns (ok: bool)
    modifies out
    ensures ok == Validate(str)
    ensures ok ==> out.data == old(out.data) + EmitString(str)
  {
    hide EmitPiece, ValidateChar, EmitChars, EmitString, Validate;
    ok := ValidateString(str);
    if !ok { return; }
    out.Put([QUOTE]);
    var p := 0;
    ghost var got: Bytes := [];
    assert str[0..] == str && [] + EmitChars(str) == EmitChars(str);
    while p < |str|
      invariant p <= |str| && Validate(str[p..]) && got + EmitChars(str[p..]) == EmitChars(str)
      invariant out.data == old(out.data) + ([QUOTE] + got)
    {
      NextPiece(str, p);
      ghost var piece := EmitPiece(str[p..]);
      Onto(old(out.data), got, piece, EmitChars(str[p + ValidateChar(str[p..])..]));
      p := EmitPieceTo(out, str, p);
      got := got + piece;
    }
    NoPieces(str, got);
    out.Put([QUOTE]);
    Onto(old(out.data), got, [QUOTE], []);
    assert [QUOTE] + got + [QUOTE] == [QUOTE] + (got + [QUOTE]);
  }

  lemma NextPiece(str: Bytes, p: nat)
    requires p < |str| && Validate(str[p..])
    ensures var len := ValidateChar(str[p..]);
            && 0 < len <= |str| - p && Validate(str[p + len..])
            && EmitChars(str[p..]) == EmitPiece(str[p..]) + EmitChars(str[p + len..])
  {
    hide EmitPiece, ValidateChar;
    assert str[p..][ValidateChar(str[p..])..] == str[p + ValidateChar(str[p..])..];
  }

  lemma Onto(before: Bytes, got: Bytes, piece: Bytes, rest: Bytes)
    ensures before + ([QUOTE] + got) + piece == before + ([QUOTE] + (got + piece))
    ensures got + (piece + rest) == got + piece + rest
  {
  }

  lemma NoPieces(str: Bytes, got: Bytes)
    requires Validate(str) && got + EmitChars(str[|str|..]) == EmitChars(str)
    ensures EmitString(str) == [QUOTE] + got + [QUOTE]
  {
    hide EmitPiece, ValidateChar, Validate;
    assert str[|str|..] == [] && got + [] == got;
  }

  method EmitScalarTo(out: Sink, n: Node, ghost S: set<Node>, ghost v: Json, ghost lay: Layout, ghost level: nat)
    returns (ok: bool)
    requires Rep(S, n, v) && !v.Coll?
    modifies out
    ensures ok == ValidStrings(v)
    ensures ok ==> out.data == old(out.data) + Emit(v, lay, level)
  {
    ok := true;
    match n.tag
    case TagNull => out.Put(LIT_NULL);
    case TagBool => out.Put(if n.bool_ then LIT_TRUE else LIT_FALSE);
    case TagString => ok := EmitStringTo(out, n.string_);
    case TagNumber => out.Put(if NumberIsValid(n.number_) then n.number_ else LIT_NULL);
    case TagArray =>
    case TagObject =>
  }

  /** The children that are still to be printed. */
  ghost function Body(kids: Kids, lay: Layout, level: nat): Bytes
    requires ValidKids(kids)
  {
    if kids.Nil? then [] else EmitKids(kids, lay, level)
  }

  lemma BodyStep(kids: Kids, level: nat, before: Bytes)
    requires ValidKids(kids) && kids.Kid?
    ensures before + Body(kids, Compact, level)
            == before + EmitKey(kids.key, Compact) + Emit(kids.value, Compact, level)
               + (if kids.next.Nil? then [] else [COMMA]) + Body(kids.next, Compact, level)
  {
    hide Emit, EmitKey;
    var a, b := EmitKey(kids.key, Compact), Emit(kids.value, Compact, level);
    if kids.next.Kid? {
      var c := EmitKids(kids.next, Compact, level);
      assert [COMMA] + [] + c == [COMMA] + c;
      assert before + (a + b + ([COMMA] + c)) == before + a + b + [COMMA] + c;
    } else {
      assert before + (a + b + []) == before + a + b + [] + [];
    }
  }

  lemma CompactColl(v: Json, level: nat, before: Bytes)
    requires v.Coll? && ValidStrings(v)
    ensures before + [Opening(v.isObject)] + Body(v.kids, Compact, level + 1) + [Closing(v.isObject)]
            == before + Emit(v, Compact, level)
  {
    hide EmitKids, Opening, Closing;
    var a, b, c := [Opening(v.isObject)], Body(v.kids, Compact, level + 1), [Closing(v.isObject)];
    assert [] + b + [] == b;
    assert before + a + b + c == before + (a + b + c);
  }

  /** The compact printer; false stands for the exception on invalid UTF-8. */
  method EmitValueTo(out: Sink, n: Node, ghost S: set<Node>, ghost v: Json, ghost level: nat) returns (ok: bool)
    requires Good(S) && Rep(S, n, v)
    modifies out
    ensures ok == ValidStrings(v)
    ensures ok ==> out.data == old(out.data) + Emit(v, Compact, level)
    decreases v
  {
    hide Emit, EmitKids, Body, Inv;
    if !n.IsColl() {
      ok := EmitScalarTo(out, n, S, v, Compact, level);
    } else {
      out.Put([Opening(n.tag == TagObject)]);
      ok := EmitChildrenTo(out, n, S, v, level + 1);
      if ok {
        out.Put([Closing(n.tag == TagObject)]);
        CompactColl(v, level, old(out.data));
      }
    }
  }

  method EmitChildrenTo(out: Sink, n: Node, ghost S: set<Node>, ghost v: Json, ghost level: nat) returns (ok: bool)
    requires Good(S) && Rep(S, n, v) && v.Coll?
    modifies out
    ensures ok == ValidKids(v.kids)
    ensures ok ==> out.data == old(out.data) + Body(v.kids, Compact, level)
    decreases v, 0
  {
    WalkStart(S, n, v);
    hide Emit, EmitKids, Inv, Body, EmitKey, Rep, RepFrom, ValidKids, ValidStrings, KeyValid;
    ghost var kids, i := v.kids, 0;
    var child := n.head;
    while child != null
      invariant 0 <= i <= |n.children| && RepFrom(S, n, i, kids) && ValidKids(v.kids) == ValidKids(kids)
      invariant child == if i == |n.children| then null else n.children[i]
      invariant kids == v.kids || kids < v.kids
      invariant ValidKids(kids)
                ==> out.data + Body(kids, Compact, level) == old(out.data) + Body(v.kids, Compact, level)
      decreases |n.children| - i
    {
      WalkStep(S, n, i, kids);
      if ValidKids(kids) { BodyStep(kids, level, out.data); }
      ok := EmitChildTo(out, n, child, S, kids, level);
      if !ok { return; }
      if child.next != null { out.Put([COMMA]); }
      child := child.next;
      i, kids := i + 1, kids.next;
    }
    WalkEnd(S, n, kids);
    ok := true;
    NothingLeft(kids, [], level, out.data);
  }

  /** A child with its key. */
  method EmitChildTo(out: Sink, n: Node, child: Node, ghost S: set<Node>, ghost kids: Kids, ghost level: nat)
    returns (ok: bool)
    requires Good(S) && n in S && child in S && kids.Kid? && Rep(S, child, kids.value)
    requires child.key == kids.key && child.key.Key? == (n.tag == TagObject)
    modifies out
    ensures ok == (KeyValid(kids.key) && ValidStrings(kids.value))
    ensures ok ==> out.data == old(out.data) + EmitKey(kids.key, Compact) + Emit(kids.value, Compact, level)
    decreases kids
  {
    hide Emit, EmitString, Inv;
    if n.tag == TagObject {
      ok := EmitStringTo(out, child.key.text);
      if !ok { return; }
      out.Put([COLON]);
      assert old(out.data) + EmitString(kids.key.text) + [COLON]
             == old(out.data) + (EmitString(kids.key.text) + [COLON]);
    }
    ok := EmitValueTo(out, child, S, kids.value, level);
  }

  // ----- The indented printer -----

  method PutRepeated(out: Sink, space: Bytes, n: nat)
    modifies out
    ensures out.data == old(out.data) + Repeat(space, n)
  {
    for i := 0 to n
      invariant out.data + Repeat(space, n - i) == old(out.data) + Repeat(space, n)
    {
      assert out.data + (space + Repeat(space, n - i - 1)) == out.data + space + Repeat(space, n - i - 1);
      out.Put(space);
    }
    assert out.data + [] == out.data;
  }

  /** What the indented printer still has to write, from the start of a line on. */
  ghost function Lines(kids: Kids, space: Bytes, level: nat): Bytes
    requires ValidKids(kids)
  {
    if kids.Nil? then [] else Repeat(space, level) + EmitKids(kids, Indented(space), level) + [0x0A]
  }

  lemma RegroupLine(before: Bytes, r: Bytes, a: Bytes, b: Bytes, c: Bytes)
    ensures before + (r + (a + b + ([COMMA] + ([0x0A] + r) + c)) + [0x0A])
            == before + r + a + b + [COMMA, 0x0A] + (r + c + [0x0A])
  {
    assert [COMMA] + ([0x0A] + r) + c == [COMMA, 0x0A] + (r + c);
    var d := r + c;
    assert before + (r + (a + b + ([COMMA, 0x0A] + d)) + [0x0A]) == before + r + a + b + [COMMA, 0x0A] + (d + [0x0A]);
  }

  lemma LinesStep(kids: Kids, space: Bytes, level: nat, before: Bytes)
    requires ValidKids(kids) && kids.Kid?
    ensures before + Lines(kids, space, level)
            == before + Repeat(space, level) + EmitKey(kids.key, Indented(space))
               + Emit(kids.value, Indented(space), level)
               + (if kids.next.Nil? then [0x0A] else [COMMA, 0x0A]) + Lines(kids.next, space, level)
  {
    hide Emit, EmitKey, Repeat;
    var lay := Indented(space);
    var r, a, b := Repeat(space, level), EmitKey(kids.key, lay), Emit(kids.value, lay, level);
    if kids.next.Kid? {
      RegroupLine(before, r, a, b, EmitKids(kids.next, lay, level));
    } else {
      assert before + (r + (a + b + []) + [0x0A]) == before + r + a + b + [0x0A] + [];
    }
  }

  lemma NothingLeft(kids: Kids, space: Bytes, level: nat, before: Bytes)
    requires kids.Nil?
    ensures ValidKids(kids) && before + Lines(kids, space, level) == before + Body(kids, Compact, level) == before
  {
  }

  lemma IndentedColl(v: Json, space: Bytes, level: nat, before: Bytes)
    requires v.Coll? && v.kids.Kid? && ValidStrings(v)
    ensures before + [Opening(v.isObject), 0x0A] + Lines(v.kids, space, level + 1) + Repeat(space, level)
            + [Closing(v.isObject)]
            == before + Emit(v, Indented(space), level)
  {
    hide EmitKids, Opening, Closing, Repeat;
    var a, c := [Opening(v.isObject)], [Closing(v.isObject)];
    var r1, r, k := Repeat(space, level + 1), Repeat(space, level), EmitKids(v.kids, Indented(space), level + 1);
    assert [Opening(v.isObject), 0x0A] == a + [0x0A];
    assert before + (a + [0x0A]) + (r1 + k + [0x0A]) + r + c == before + (a + (([0x0A] + r1) + k + ([0x0A] + r)) + c);
  }

  /** The indented printer; false stands for the exception on invalid UTF-8. */
  method EmitIndentedTo(out: Sink, n: Node, space: Bytes, level: nat, ghost S: set<Node>, ghost v: Json)
    returns (ok: bool)
    requires Good(S) && Rep(S, n, v)
    modifies out
    ensures ok == ValidStrings(v)
    ensures ok ==> out.data == old(out.data) + Emit(v, Indented(space), level)
    decreases v
  {
    hide Emit, EmitKids, Inv, Lines, Repeat;
    if !n.IsColl() {
      ok := EmitScalarTo(out, n, S, v, Indented(space), level);
      return;
    }
    assert n.children[0..] == n.children && n.keys[0..] == n.keys;
    RepNext(S, n, 0, v.kids);
    if n.children == [] { EmptyList(S, n); } else { WalkList(S, n, 0); }
    if n.head == null {
      out.Put([Opening(n.tag == TagObject), Closing(n.tag == TagObject)]);
      EmptyIndented(v, space, level);
      ok := true;
    } else {
      out.Put([Opening(n.tag == TagObject), 0x0A]);
      ok := EmitLinesTo(out, n, space, level + 1, S, v);
      if !ok { return; }
      PutRepeated(out, space, level);
      out.Put([Closing(n.tag == TagObject)]);
      IndentedColl(v, space, level, old(out.data));
    }
  }

  lemma EmptyIndented(v: Json, space: Bytes, level: nat)
    requires v.Coll? && v.kids.Nil?
    ensures Emit(v, Indented(space), level) == [Opening(v.isObject), Closing(v.isObject)]
  {
  }

  method EmitLinesTo(out: Sink, n: Node, space: Bytes, level: nat, ghost S: set<Node>, ghost v: Json) returns (ok: bool)
    requires Good(S) && Rep(S, n, v) && v.Coll?
    modifies out
    ensures ok == ValidKids(v.kids)
    ensures ok ==> out.data == old(out.data) + Lines(v.kids, space, level)
    decreases v, 0
  {
    WalkStart(S, n, v);
    hide Emit, EmitKids, Inv, EmitKey, Repeat, Lines, Rep, RepFrom, ValidKids, ValidStrings, KeyValid;
    ghost var kids, i := v.kids, 0;
    var child := n.head;
    while child != null
      invariant 0 <= i <= |n.children| && RepFrom(S, n, i, kids) && ValidKids(v.kids) == ValidKids(kids)
      invariant child == if i == |n.children| then null else n.children[i]
      invariant kids == v.kids || kids < v.kids
      invariant ValidKids(kids) ==> out.data + Lines(kids, space, level) == old(out.data) + Lines(v.kids, space, level)
      decreases |n.children| - i
    {
      WalkStep(S, n, i, kids);
      if ValidKids(kids) { LinesStep(kids, space, level, out.data); }
      PutRepeated(out, space, level);
      ok := EmitIndentedChildTo(out, n, child, space, level, S, kids);
      if !ok { return; }
      child := child.next;
      out.Put(if child != null then [COMMA, 0x0A] else [0x0A]);
      i, kids := i + 1, kids.next;
    }
    WalkEnd(S, n, kids);
    ok := true;
    NothingLeft(kids, space, level, out.data);
  }

  method EmitIndentedChildTo(out: Sink, n: Node, child: Node, space: Bytes, level: nat, ghost S: set<Node>,
                             ghost kids: Kids)
    returns (ok: bool)
    requires Good(S) && n in S && child in S && kids.Kid? && Rep(S, child, kids.value)
    requires child.key == kids.key && child.key.Key? == (n.tag == TagObject)
    modifies out
    ensures ok == (KeyValid(kids.key) && ValidStrings(kids.value))
    ensures ok ==>
              out.data == old(out.data) + EmitKey(kids.key, Indented(space)) + Emit(kids.value, Indented(space), level)
    decreases kids
  {
    hide Emit, EmitString, Inv;
    if n.tag == TagObject {
      ok := EmitStringTo(out, child.key.text);
      if !ok { return; }
      out.Put([COLON, 0x20]);
      assert old(out.data) + EmitString(kids.key.text) + [COLON, 0x20]
             == old(out.data) + (EmitString(kids.key.text) + [COLON, 0x20]);
    }
    ok := EmitIndentedTo(out, child, space, level, S, kids.value);
  }
}
