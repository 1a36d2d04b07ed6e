/**
 The parser as it runs: a cursor over a NUL-terminated text, a string buffer that grows, and nodes
 that are linked in place. With `build` false it only validates. Every read is at the cursor, and
 `At` cannot be asked for a byte behind the terminator.
 */
module JsonParser {
  import opened Utf8
  import opened JsonNumber
  import opened JsonString
  import opened JsonText
  import opened JsonLinks
  import opened JsonNode
  import opened JsonTree
  import opened JsonDelete

  // ----- The string buffer -----

  /** `data` has room for `data.Length - 1` bytes and a terminator; `cur` bytes are in use. */
  class SB {
    var data: array<byte>
    var cur: nat

    ghost predicate Valid()
      reads this
    {
      16 < data.Length && cur < data.Length
    }

    constructor ()
      ensures Valid() && fresh(data) && cur == 0
    {
      data := new byte[17](_ => 0);
      cur := 0;
    }

    /** Room for `need` more bytes, in front of the terminator. */
    method Need(need: nat)
      requires Valid()
      modifies this`data
      ensures Valid() && (data == old(data) || fresh(data))
      ensures cur + need < data.Length && data[..cur] == old(data[..cur])
    {
      if data.Length - 1 - cur < need {
        Grow(need);
      }
    }

    /** Doubles the room until it suffices. */
    method Grow(need: nat)
      requires Valid()
      modifies this`data
      ensures Valid() && fresh(data) && cur + need < data.Length && data[..cur] == old(data[..cur])
    {
      var alloc := 2 * (data.Length - 1);
      while alloc < cur + need
        invariant alloc >= 2 * (data.Length - 1)
        decreases cur + need - alloc
      {
        alloc := 2 * alloc;
      }
      var bigger := new byte[alloc + 1](_ => 0);
      forall i | 0 <= i < cur { bigger[i] := data[i]; }
      data := bigger;
      assert data[..cur] == old(data[..cur]);
    }

    /** Terminates the string and hands it over. */
    method Finish() returns (s: Bytes)
      requires Valid()
      modifies data
      ensures s == old(data[..cur])
    {
      data[cur] := 0;
      s := data[..cur];
    }
  }

  // ----- String literals -----

  lemma HexStep(t: Bytes, n: nat, acc: nat)
    ensures n == 0 ==> ParseHex(t, n, acc) == Hex(acc, t)
    ensures n > 0 && !IsHex(At(t, 0)) ==> ParseHex(t, n, acc) == NoHex
    ensures n > 0 && IsHex(At(t, 0)) ==>
              t != [] && ParseHex(t, n, acc) == ParseHex(t[1..], n - 1, acc * 16 + HexValue(t[0]))
  {
    hide HexValue;
  }

  /** Four hexadecimal digits at the cursor. */
  method ScanHex16(s: Bytes, p: nat) returns (ok: bool, q: nat, val: nat)
    requires p <= |s|
    ensures p <= q <= |s|
    ensures ParseHex(s[p..], 4, 0) == if ok then Hex(val, s[q..]) else NoHex
  {
    hide ParseHex, IsHex, HexValue;
    ok, q, val := true, p, 0;
    for i := 0 to 4
      invariant q == p + i <= |s| && ParseHex(s[p..], 4, 0) == ParseHex(s[q..], 4 - i, val)
    {
      HexStep(s[q..], 4 - i, val);
      if !IsHex(At(s, q)) { return false, p, 0; }
      assert s[q..][1..] == s[q + 1..];
      val := val * 16 + HexValue(s[q]);
      q := q + 1;
    }
    HexStep(s[q..], 0, val);
  }

  /** Bytes `w` written to a buffer at `b`. */
  ghost predicate Wrote(before: Bytes, now: Bytes, b: nat, w: Bytes) {
    b + |w| <= |now| == |before| && now[..b] == before[..b] && now[b..b + |w|] == w
  }

  method WriteBytes(buf: array<byte>, b: nat, w: Bytes)
    requires b + |w| <= buf.Length
    modifies buf
    ensures Wrote(old(buf[..]), buf[..], b, w)
  {
    for i := 0 to |w|
      invariant buf[..b] == old(buf[..b]) && buf[b..b + i] == w[..i]
    {
      buf[b + i] := w[i];
    }
    assert buf[..][..b] == buf[..b] == old(buf[..b]) == old(buf[..])[..b];
    assert buf[..][b..b + |w|] == buf[b..b + |w|];
  }

  /** The code point after `\u`; surrogates must come in pairs. */
  method ScanUnicode(s: Bytes, p: nat) returns (ok: bool, q: nat, u: nat)
    requires p <= |s|
    ensures p <= q <= |s|
    ensures ok ==> IsScalar(u) && ParseUnicode(s[p..]) == Piece(WriteChar(u), s[q..])
    ensures !ok ==> ParseUnicode(s[p..]).BadPiece?
  {
    hide ParseHex, WriteChar;
    q, u := p, 0;
    var uc, lc;
    ok, q, uc := ScanHex16(s, p);
    if !ok { return; }
    if 0xD800 <= uc <= 0xDFFF {
      ok := At(s, q) == BACKSLASH;
      if !ok { return; }
      assert s[q..][1..] == s[q + 1..];
      ok := At(s, q + 1) == LETTER_U;
      if !ok { return; }
      assert s[q..][2..] == s[q + 2..];
      ok, q, lc := ScanHex16(s, q + 2);
      if !ok { return; }
      var r := FromPair(uc, lc);
      ok := r.Scalar?;
      if ok {
        SplitInvertsJoin(uc, lc);
        u := r.u;
      }
    } else {
      HexFits(s[p..], 4, 0);
      ok, u := uc != 0, uc;
    }
  }

  /** One character of a literal: decoded into the buffer at `b`, at most four bytes. */
  method ScanPiece(s: Bytes, p: nat, buf: array<byte>, b: nat) returns (ok: bool, q: nat, e: nat)
    requires p <= |s| && b + 4 <= buf.Length
    modifies buf
    ensures p <= q <= |s| && b <= e <= b + 4
    ensures ok ==> p < q && ParsePiece(s[p..]).Piece? && ParsePiece(s[p..]).rest == s[q..]
    ensures ok ==> e == b + |ParsePiece(s[p..]).out| && Wrote(old(buf[..]), buf[..], b, ParsePiece(s[p..]).out)
    ensures !ok ==> ParsePiece(s[p..]).BadPiece?
  {
    hide ParseUnicode, WriteChar, ValidateChar;
    ok, q, e := false, p, b;
    var c := At(s, p);
    if c == BACKSLASH {
      assert s[p..][1..] == s[p + 1..];
      c := At(s, p + 1);
      if c == LETTER_U {
        assert s[p + 1..][1..] == s[p + 2..];
        var u;
        ok, q, u := ScanUnicode(s, p + 2);
        if ok {
          var w := WriteChar(u);
          WriteBytes(buf, b, w);
          e := b + |w|;
        }
      } else {
        var r := Unescaped(c);
        if r != 0 {
          assert s[p + 1..][1..] == s[p + 2..];
          WriteBytes(buf, b, [r]);
          ok, q, e := true, p + 2, b + 1;
        }
      }
    } else if c > 0x1F {
      var len := ValidateChar(s[p..]);
      if len != 0 {
        assert s[p..][len..] == s[p + len..] && s[p..][..len] == s[p..p + len];
        WriteBytes(buf, b, s[p..p + len]);
        ok, q, e := true, p + len, b + len;
      }
    }
  }

  /** The byte a one-letter escape stands for, or 0. */
  function Unescaped(c: byte): (r: byte)
    ensures c != LETTER_U ==> forall t: Bytes :: t != [] && t[0] == c ==>
              ParseEscape(t) == if r == 0 then BadPiece else Piece([r], t[1..])
    ensures c == 0 ==> r == 0
  {
    match c
    case 0x22 => QUOTE
    case 0x5C => BACKSLASH
    case 0x2F => SLASH
    case 0x62 => 8
    case 0x66 => 12
    case 0x6E => 10
    case 0x72 => 13
    case 0x74 => 9
    case _ => 0
  }

  /** What `ParseChars` still has to add to the bytes collected so far. */
  function With(w: Bytes, r: Chars): Chars {
    match r
    case BadChars => BadChars
    case Chars(out, rest) => Chars(w + out, rest)
  }

  lemma CharsStep(w: Bytes, t: Bytes)
    requires At(t, 0) != QUOTE
    ensures ParsePiece(t).BadPiece? ==> With(w, ParseChars(t)) == BadChars
    ensures ParsePiece(t).Piece?
            ==> With(w, ParseChars(t)) == With(w + ParsePiece(t).out, ParseChars(ParsePiece(t).rest))
  {
    hide ParsePiece;
    if ParsePiece(t).Piece? {
      var r := ParseChars(ParsePiece(t).rest);
      PieceIsSuffix(t);
      if r.Chars? { assert w + (ParsePiece(t).out + r.out) == w + ParsePiece(t).out + r.out; }
    }
  }

  lemma CharsEnd(w: Bytes, t: Bytes)
    requires At(t, 0) == QUOTE
    ensures With(w, ParseChars(t)) == Chars(w, t[1..])
  {
    assert w + [] == w;
  }

  /** A string literal at the cursor, collected in a buffer that grows. */
  method ScanString(s: Bytes, p: nat) returns (ok: bool, q: nat, out: Bytes)
    requires p <= |s|
    ensures p <= q <= |s| && (!ok ==> q == p)
    ensures ParseString(s[p..]) == if ok then Chars(out, s[q..]) else BadChars
  {
    hide ParsePiece, ParseChars, With;
    ok, q, out := false, p, [];
    if At(s, p) != QUOTE { return; }
    var i := p + 1;
    assert s[p..][1..] == s[i..];
    var sb := new SB();
    sb.Need(4);
    ghost var w: Bytes := [];
    NothingYet(ParseChars(s[i..]));
    while At(s, i) != QUOTE
      invariant p < i <= |s| && sb.Valid() && fresh(sb) && fresh(sb.data) && sb.cur + 4 < sb.data.Length
      invariant sb.data[..sb.cur] == w && With(w, ParseChars(s[i..])) == ParseChars(s[p + 1..])
      decreases |s| - i
    {
      ghost var piece := ParsePiece(s[i..]);
      CharsStep(w, s[i..]);
      var b;
      ok, i, b := ScanPiece(s, i, sb.data, sb.cur);
      if !ok { return; }
      AppendedBytes(sb.data[..], sb.cur, piece.out, w);
      w := w + piece.out;
      sb.cur := b;
      assert sb.data[..sb.cur] == w;
      sb.Need(4);
    }
    CharsEnd(w, s[i..]);
    assert s[i..][1..] == s[i + 1..];
    out := sb.Finish();
    ok, q := true, i + 1;
  }

  lemma NothingYet(r: Chars)
    ensures With([], r) == r
  {
    if r.Chars? { assert [] + r.out == r.out; }
  }

  lemma AppendedBytes(now: Bytes, b: nat, out: Bytes, w: Bytes)
    requires b + |out| <= |now| && now[..b] == w && now[b..b + |out|] == out
    ensures now[..b + |out|] == w + out
  {
    assert now[..b + |out|] == now[..b] + now[b..b + |out|];
  }

  /** The same without collecting: every character is decoded into a scratch buffer of four bytes. */
  method SkipString(s: Bytes, p: nat) returns (ok: bool, q: nat)
    requires p <= |s|
    ensures p <= q <= |s| && (!ok ==> q == p)
    ensures ok == ParseString(s[p..]).Chars? && (ok ==> ParseString(s[p..]).rest == s[q..])
  {
    hide ParsePiece, ParseChars, With;
    ok, q := false, p;
    if At(s, p) != QUOTE { return; }
    var i := p + 1;
    assert s[p..][1..] == s[i..];
    var scratch := new byte[4](_ => 0);
    ghost var w: Bytes := [];
    NothingYet(ParseChars(s[i..]));
    while At(s, i) != QUOTE
      invariant p < i <= |s| && With(w, ParseChars(s[i..])) == ParseChars(s[p + 1..])
      decreases |s| - i
    {
      ghost var piece := ParsePiece(s[i..]);
      CharsStep(w, s[i..]);
      var b;
      ok, i, b := ScanPiece(s, i, scratch, 0);
      if !ok { return; }
      w := w + piece.out;
    }
    CharsEnd(w, s[i..]);
    assert s[i..][1..] == s[i + 1..];
    ok, q := true, i + 1;
  }

  // ----- Values -----

  method ScanSpace(s: Bytes, p: nat) returns (q: nat)
    requires p <= |s|
    ensures p <= q <= |s| && SkipSpace(s[p..]) == s[q..]
  {
    q := p;
    while IsSpace(At(s, q))
      invariant p <= q <= |s| && SkipSpace(s[p..]) == SkipSpace(s[q..])
      decreases |s| - q
    {
      assert s[q..][1..] == s[q + 1..];
      q := q + 1;
    }
  }

  method ScanLiteral(s: Bytes, p: nat, lit: Bytes) returns (ok: bool, q: nat)
    requires p <= |s| && 0 !in lit
    ensures p <= q <= |s| && (!ok ==> q == p)
    ensures ok == (|lit| <= |s[p..]| && s[p..][..|lit|] == lit)
    ensures ok ==> s[q..] == s[p..][|lit|..]
  {
    q := p;
    for i := 0 to |lit|
      invariant q == p + i <= |s| && s[p..q] == lit[..i]
    {
      if At(s, q) != lit[i] {
        assert |lit| <= |s[p..]| ==> s[p..][..|lit|][i] == At(s, q);
        return false, p;
      }
      assert lit[i] in lit;
      assert s[p..q + 1] == s[p..q] + [s[q]];
      q := q + 1;
    }
    ok := true;
    assert s[p..][..|lit|] == s[p..q];
  }

  /** A tree of its own: `N` is all of it, and nothing else refers to it. */
  ghost predicate Built(N: set<Node>, n: Node?, v: Json)
    reads N
  {
    n != null && n in N && Good(N) && Rep(N, n, v) && Subtree(N, n, v) == N && n.Links().up == Root()
  }

  /** A new node is a tree of its own. */
  lemma SingleIsGood(n: Node)
    requires n.Links() == JsonLinks.Links(Root(), List(n.IsColl(), n.tag == TagObject, No, No, [], []))
    ensures Good({n})
  {
    var m := Snapshot({n});
    assert ListOk(m, n) && UpOk(m, n);
  }

  method MakeNode(h: Heap, tag: Tag, b: bool, str: Bytes, num: Bytes, ghost v: Json)
    returns (n: Node, ghost N: set<Node>)
    requires match v
             case Null => tag == TagNull
             case Bool(c) => tag == TagBool && c == b
             case Str(s) => tag == TagString && s == str
             case Num(x) => tag == TagNumber && x == num
             case Coll(isObject, kids) => tag == (if isObject then TagObject else TagArray) && kids.Nil?
    modifies h
    ensures fresh(n) && N == {n} && Built(N, n, v) && h.live == old(h.live) + N
    ensures n.children == [] && n.keys == [] && n.tag == tag
  {
    n := h.Make(tag, b, str, num);
    N := {n};
    SingleIsGood(n);
  }

  /** Literals, strings and numbers. */
  method ParseScalarAt(h: Heap, s: Bytes, p: nat, build: bool)
    returns (ok: bool, q: nat, node: Node?, ghost N: set<Node>)
    requires p <= |s| && At(s, p) != Opening(true) && At(s, p) != Opening(false)
    modifies h
    ensures p <= q <= |s| && (!ok ==> q == p)
    ensures ok == ParseScalar(s[p..]).Ok? && (ok ==> ParseScalar(s[p..]).rest == s[q..])
    ensures ok && build ==> fresh(N) && Built(N, node, ParseScalar(s[p..]).value)
    ensures (!ok || !build ==> N == {}) && h.live == old(h.live) + N
  {
    hide ParseString, ParseNumber, Inv;
    q, node, N := p, null, {};
    match At(s, p)
    case 0x6E =>
      ok, q := ScanLiteral(s, p, LIT_NULL);
      if ok && build { node, N := MakeNode(h, TagNull, false, [], [], Null); }
    case 0x66 =>
      ok, q := ScanLiteral(s, p, LIT_FALSE);
      if ok && build { node, N := MakeNode(h, TagBool, false, [], [], Bool(false)); }
    case 0x74 =>
      ok, q := ScanLiteral(s, p, LIT_TRUE);
      if ok && build { node, N := MakeNode(h, TagBool, true, [], [], Bool(true)); }
    case 0x22 =>
      if build {
        var str;
        ok, q, str := ScanString(s, p);
        if ok { node, N := MakeNode(h, TagString, false, str, [], Str(str)); }
      } else {
        ok, q := SkipString(s, p);
      }
    case _ =>
      ok, q := ScanNumber(s, p);
      if ok && build {
        ghost var t := s[p..];
        NumberSuffix(t);
        assert t[..|t| - |s[q..]|] == s[p..q];
        node, N := MakeNode(h, TagNumber, false, [], s[p..q], Num(s[p..q]));
      }
  }

  // ----- Arrays and objects -----

  function Concat(a: Kids, b: Kids): Kids {
    match a
    case Nil => b
    case Kid(key, v, next) => Kid(key, v, Concat(next, b))
  }

  /** What `ParseKids` still has to add to the children parsed so far. */
  function After(done: Kids, r: ParsedKids): ParsedKids {
    match r
    case NoKids => NoKids
    case SomeKids(kids, rest) => SomeKids(Concat(done, kids), rest)
  }

  lemma {:induction false} ConcatAssoc(a: Kids, b: Kids, c: Kids)
    ensures Concat(Concat(a, b), c) == Concat(a, Concat(b, c))
  {
    if a.Kid? { ConcatAssoc(a.next, b, c); }
  }

  lemma {:induction false} ConcatNil(a: Kids)
    ensures Concat(a, Nil) == a
  {
    if a.Kid? { ConcatNil(a.next); }
  }

  /** What becomes of the children parsed so far, from the text `x` behind one of them. */
  function Onward(isObject: bool, done: Kids, x: Bytes): ParsedKids {
    if At(x, 0) == Closing(isObject) then SomeKids(done, x[1..])
    else if At(x, 0) != COMMA then NoKids
    else After(done, ParseKids(isObject, SkipSpace(x[1..])))
  }

  /** One round of the loop over children, from the text `t` before a child. */
  lemma KidsStep(isObject: bool, t: Bytes, done: Kids, key: Key, u: Bytes, v: Json, w: Bytes)
    requires ParseKey(isObject, t) == GoodKey(key, u) && ParseValue(u) == Ok(v, w)
    ensures After(done, ParseKids(isObject, t)) == Onward(isObject, Concat(done, Kid(key, v, Nil)), SkipSpace(w))
  {
    hide ParseKey, ParseValue, SkipSpace;
    var x := SkipSpace(w);
    if At(x, 0) == COMMA {
      var r := ParseKids(isObject, SkipSpace(x[1..]));
      if r.SomeKids? { ConcatAssoc(done, Kid(key, v, Nil), r.kids); }
    }
  }

  lemma KidsFail(isObject: bool, t: Bytes, done: Kids)
    requires ParseKey(isObject, t).BadKey? || ParseValue(ParseKey(isObject, t).rest).Fail?
    ensures After(done, ParseKids(isObject, t)) == NoKids
  {
    hide ParseKey, ParseValue;
  }

  /** The key of a member and the colon, or nothing in an array. */
  method ParseKeyAt(s: Bytes, p: nat, isObject: bool, build: bool) returns (ok: bool, q: nat, key: Key)
    requires p <= |s|
    ensures p <= q <= |s|
    ensures ok == ParseKey(isObject, s[p..]).GoodKey?
    ensures ok ==> ParseKey(isObject, s[p..]).rest == s[q..]
    ensures ok && (build || !isObject) ==> ParseKey(isObject, s[p..]).key == key
  {
    hide ParseString, SkipSpace;
    ok, q, key := true, p, NoKey;
    if isObject {
      if build {
        var text;
        ok, q, text := ScanString(s, p);
        key := Key(text);
      } else {
        ok, q := SkipString(s, p);
      }
      if !ok { return; }
      q := ScanSpace(s, q);
      ok := At(s, q) == COLON;
      if !ok { return; }
      assert s[q..][1..] == s[q + 1..];
      q := ScanSpace(s, q + 1);
    }
  }

  // ----- Attaching a finished tree -----

  lemma {:induction false} RepKidsSnoc(S: set<Node>, cs: seq<Node>, ks: seq<Key>, kids: Kids, c: Node, k: Key, v: Json)
    requires RepKids(S, cs, ks, kids) && Rep(S, c, v)
    ensures RepKids(S, cs + [c], ks + [k], Concat(kids, Kid(k, v, Nil)))
    ensures SubtreeKids(S, cs + [c], ks + [k], Concat(kids, Kid(k, v, Nil)))
            == SubtreeKids(S, cs, ks, kids) + Subtree(S, c, v)
    decreases kids
  {
    if kids.Kid? {
      RepKidsSnoc(S, cs[1..], ks[1..], kids.next, c, k, v);
      assert (cs + [c])[1..] == cs[1..] + [c] && (ks + [k])[1..] == ks[1..] + [k];
    } else {
      assert (cs + [c])[1..] == [] && (ks + [k])[1..] == [];
    }
  }

  /** Two sets of nodes that know nothing of each other are in order together. */
  lemma UnionIsGood(S: set<Node>, T: set<Node>)
    requires Good(S) && Good(T)
    ensures Good(S + T)
  {
    hide Inv;
    UnionInv(Snapshot(S + T), Snapshot(S), Snapshot(T));
  }

  /** A collection under construction, with the children parsed so far. */
  ghost predicate Growing(R: set<Node>, ret: Node?, isObject: bool, done: Kids)
    reads R
  {
    && ret != null && ret in R && Good(R) && ret.Links().up == Root()
    && ret.tag == (if isObject then TagObject else TagArray)
    && RepKids(R - {ret}, ret.children, ret.keys, done)
    && SubtreeKids(R - {ret}, ret.children, ret.keys, done) == R - {ret}
  }

  lemma GrownIsBuilt(R: set<Node>, ret: Node?, isObject: bool, done: Kids)
    requires Growing(R, ret, isObject, done)
    ensures Built(R, ret, Coll(isObject, done))
  {
    RepKidsWith(R, R - {ret}, ret.children, ret.keys, done);
  }

  /** Attach a finished child to the collection under construction. */
  method Attach(ret: Node?, child: Node?, key: Key, ghost R: set<Node>, ghost N: set<Node>,
                ghost isObject: bool, ghost done: Kids, ghost v: Json)
    requires Growing(R, ret, isObject, done) && Built(N, child, v) && R !! N && key.Key? == isObject
    modifies R, N
    ensures Growing(R + N, ret, isObject, Concat(done, Kid(key, v, Nil)))
  {
    hide CanAttach, Append, Inv, RepKids, SubtreeKids, Subtree, Rep, Concat;
    ghost var S := R + N;
    ghost var m, U, all := Snapshot(S), S - {ret}, Concat(done, Kid(key, v, Nil));
    NodesReady(ret, child, key, R, N, isObject, done, v);
    KidsReady(ret, child, key, R, N, done, v);
    hide Growing, Built;
    ghost var cs, ks := ret.children + [child], ret.keys + [key];
    AppendNode(ret, child, key, S);
    AppendShape(m, ret, child, key);
    assert ret.Links() == Snapshot(S)[ret];
    assert ret.children == cs && ret.keys == ks;
    MakesGrowing(S, ret, isObject, all);
  }

  lemma NodesReady(ret: Node?, child: Node?, key: Key, R: set<Node>, N: set<Node>, isObject: bool, done: Kids, v: Json)
    requires Growing(R, ret, isObject, done) && Built(N, child, v) && R !! N && key.Key? == isObject
    ensures ret != null && child != null && ret in R && child in N && ret.Links().up == Root()
    ensures ret.tag == (if isObject then TagObject else TagArray)
    ensures Good(R + N) && CanAttach(Snapshot(R + N), ret, child, key)
    ensures forall c :: c in ret.children ==> c in R
  {
    hide Inv, RepKids, Rep, SubtreeKids, Subtree;
    UnionIsGood(R, N);
    ChildrenInside(R, ret);
  }

  lemma KidsReady(ret: Node, child: Node, key: Key, R: set<Node>, N: set<Node>, done: Kids, v: Json)
    requires ret in R && ret !in N && RepKids(R - {ret}, ret.children, ret.keys, done) && Rep(N, child, v)
    requires SubtreeKids(R - {ret}, ret.children, ret.keys, done) == R - {ret} && Subtree(N, child, v) == N
    ensures var U, all := R + N - {ret}, Concat(done, Kid(key, v, Nil));
            && RepKids(U, ret.children + [child], ret.keys + [key], all)
            && SubtreeKids(U, ret.children + [child], ret.keys + [key], all) == U
  {
    hide RepKids, Rep, SubtreeKids, Subtree;
    var U := R + N - {ret};
    RepKidsWith(U, R - {ret}, ret.children, ret.keys, done);
    RepWith(U, N, child, v);
    RepKidsSnoc(U, ret.children, ret.keys, done, child, key, v);
  }

  lemma MakesGrowing(S: set<Node>, ret: Node, isObject: bool, all: Kids)
    requires ret in S && Good(S) && ret.Links().up == Root()
    requires ret.tag == (if isObject then TagObject else TagArray)
    requires RepKids(S - {ret}, ret.children, ret.keys, all)
    requires SubtreeKids(S - {ret}, ret.children, ret.keys, all) == S - {ret}
    ensures Growing(S, ret, isObject, all)
  {
  }

  lemma AppendShape<Id>(m: Nodes<Id>, p: Id, child: Id, k: Key)
    requires Inv(m) && CanAttach(m, p, child, k)
    ensures m[p].list.tail.Yes? ==> m[p].list.tail.id in m
    ensures Append(m, p, child, k)[p] == m[p].(list := AppendTo(m[p].list, child, k))
  {
    hide Inv, Append;
    EndsExist(m, p);
    AppendAt(m, p, child, k, p);
  }

  // ----- The recursive descent -----

  /**
   A value at the cursor. On failure the cursor does not move, and every node that was made has been
   freed; nodes are made only to build.
   */
  method ParseValueAt(h: Heap, s: Bytes, p: nat, build: bool)
    returns (ok: bool, q: nat, node: Node?, ghost N: set<Node>)
    requires p <= |s|
    modifies h
    ensures p <= q <= |s| && (!ok ==> q == p)
    ensures ok == ParseValue(s[p..]).Ok? && (ok ==> ParseValue(s[p..]).rest == s[q..])
    ensures ok && build ==> fresh(N) && Built(N, node, ParseValue(s[p..]).value)
    ensures (!ok || !build ==> N == {}) && h.live == old(h.live) + N
    decreases |s| - p, 1
  {
    hide ParseColl, ParseScalar, Inv;
    if At(s, p) == Opening(false) || At(s, p) == Opening(true) {
      ok, q, node, N := ParseCollAt(h, s, p, At(s, p) == Opening(true), build);
    } else {
      ok, q, node, N := ParseScalarAt(h, s, p, build);
    }
  }

  method ParseCollAt(h: Heap, s: Bytes, p: nat, isObject: bool, build: bool)
    returns (ok: bool, q: nat, node: Node?, ghost N: set<Node>)
    requires p < |s| && s[p] == Opening(isObject)
    modifies h
    ensures p <= q <= |s| && (!ok ==> q == p)
    ensures ok == ParseColl(isObject, s[p..]).Ok? && (ok ==> ParseColl(isObject, s[p..]).rest == s[q..])
    ensures ok && build ==> fresh(N) && Built(N, node, ParseColl(isObject, s[p..]).value)
    ensures (!ok || !build ==> N == {}) && h.live == old(h.live) + N
    decreases |s| - p, 0
  {
    hide ParseKids, SkipSpace, Inv, RepKids;
    node, N := null, {};
    if build { node, N := MakeColl(h, isObject); }
    assert s[p..][1..] == s[p + 1..];
    var i := ScanSpace(s, p + 1);
    if At(s, i) == Closing(isObject) {
      assert s[i..][1..] == s[i + 1..];
      if build { GrownIsBuilt(N, node, isObject, Nil); }
      ok, q := true, i + 1;
    } else {
      ghost var kids;
      ok, q, N, kids := ParseKidsAt(h, s, i, isObject, build, node, N);
      if build {
        GrownIsBuilt(N, node, isObject, kids);
        if !ok { N := Delete(h, node, N, Coll(isObject, kids)); }
      }
      if !ok { q := p; }
    }
  }

  method MakeColl(h: Heap, isObject: bool) returns (n: Node, ghost N: set<Node>)
    modifies h
    ensures fresh(N) && Growing(N, n, isObject, Nil) && h.live == old(h.live) + N
  {
    n, N := MakeNode(h, if isObject then TagObject else TagArray, false, [], [], Coll(isObject, Nil));
  }

  /** One child, attached, and the space behind it. */
  method ParseKidAt(h: Heap, s: Bytes, i: nat, isObject: bool, build: bool, ret: Node?, ghost R0: set<Node>,
                    ghost done: Kids)
    returns (ok: bool, j: nat, ghost R: set<Node>, ghost more: Kids)
    requires i <= |s| && (build ==> Growing(R0, ret, isObject, done))
    modifies h, R0
    ensures i <= j <= |s|
    ensures After(done, ParseKids(isObject, s[i..])) == if ok then Onward(isObject, more, s[j..]) else NoKids
    ensures if build then R0 <= R && fresh(R - R0) && Growing(R, ret, isObject, more) else R == R0
    ensures h.live == old(h.live) + (R - R0)
    decreases |s| - i, 2
  {
    hide ParseKids, ParseKey, ParseValue, SkipSpace, Onward, Inv, RepKids, Concat, Growing, Built;
    ghost var t := s[i..];
    var key, child;
    ghost var N;
    R, more := R0, done;
    ok, j, key := ParseKeyAt(s, i, isObject, build);
    if !ok {
      KidsFail(isObject, t, done);
      return;
    }
    ghost var u, k := s[j..], ParseKey(isObject, t).key;
    ok, j, child, N := ParseValueAt(h, s, j, build);
    if !ok {
      KidsFail(isObject, t, done);
      return;
    }
    ghost var v := ParseValue(u).value;
    KidsStep(isObject, t, done, k, u, v, s[j..]);
    KeyKind(isObject, t);
    j := ScanSpace(s, j);
    if build {
      Attach(ret, child, key, R, N, isObject, done, v);
      R := R + N;
    }
    more := Concat(done, Kid(k, v, Nil));
  }

  /** The loop over children, from the first child to behind the closing bracket. */
  method ParseKidsAt(h: Heap, s: Bytes, p: nat, isObject: bool, build: bool, ret: Node?, ghost R0: set<Node>)
    returns (ok: bool, q: nat, ghost R: set<Node>, ghost kids: Kids)
    requires p <= |s| && (build ==> Growing(R0, ret, isObject, Nil))
    modifies h, R0
    ensures p <= q <= |s|
    ensures if ok then ParseKids(isObject, s[p..]) == SomeKids(kids, s[q..]) else ParseKids(isObject, s[p..]) == NoKids
    ensures if build then R0 <= R && fresh(R - R0) && Growing(R, ret, isObject, kids) else R == R0
    ensures h.live == old(h.live) + (R - R0)
    decreases |s| - p, 3
  {
    hide ParseKids, ParseKey, ParseValue, SkipSpace, Inv, RepKids, Concat, Growing, Built;
    ok, q, R := false, p, R0;
    var i := p;
    kids := Nil;
    NothingDone(ParseKids(isObject, s[p..]));
    while true
      invariant p <= i <= |s| && After(kids, ParseKids(isObject, s[i..])) == ParseKids(isObject, s[p..])
      invariant (!build ==> R == R0) && h.live == old(h.live) + (R - R0)
      invariant build ==> R0 <= R && fresh(R - R0) && Growing(R, ret, isObject, kids)
      decreases |s| - i
    {
      var j;
      ok, j, R, kids := ParseKidAt(h, s, i, isObject, build, ret, R, kids);
      if !ok { return; }
      if At(s, j) == Closing(isObject) {
        assert s[j..][1..] == s[j + 1..];
        return true, j + 1, R, kids;
      }
      if At(s, j) != COMMA { return false, p, R, kids; }
      assert s[j..][1..] == s[j + 1..];
      i := ScanSpace(s, j + 1);
    }
  }

  lemma KeyKind(isObject: bool, t: Bytes)
    requires ParseKey(isObject, t).GoodKey?
    ensures ParseKey(isObject, t).key.Key? == isObject
  {
    hide ParseString, SkipSpace;
  }

  lemma NothingDone(r: ParsedKids)
    ensures After(Nil, r) == r
  {
  }

  /** `json_decode`: the whole text is one value. `N` are the nodes that are left; a rejected text leaves none. */
  method DecodeText(h: Heap, s: Bytes) returns (ok: bool, node: Node?, ghost N: set<Node>)
    requires 0 !in s
    modifies h
    ensures ok == Decode(s).Valid?
    ensures ok ==> fresh(N) && Built(N, node, Decode(s).value)
    ensures h.live == old(h.live) + if ok then N else {}
  {
    hide ParseValue, SkipSpace, Inv;
    var p := ScanSpace(s, 0);
    assert s[0..] == s;
    ghost var r := ParseValue(s[p..]);
    ok, p, node, N := ParseValueAt(h, s, p, true);
    if ok {
      p := ScanSpace(s, p);
      ok := At(s, p) == 0;
      assert ok <==> s[p..] == [];
      if !ok { N := Delete(h, node, N, r.value); }
    }
  }

  /** `json_validate`: the same without building; it accepts exactly what `json_decode` accepts. */
  method ValidateText(h: Heap, s: Bytes) returns (ok: bool)
    requires 0 !in s
    modifies h
    ensures ok == Decode(s).Valid? && h.live == old(h.live)
  {
    hide ParseValue, SkipSpace, Inv;
    var p := ScanSpace(s, 0);
    assert s[0..] == s;
    var node;
    ghost var N;
    ok, p, node, N := ParseValueAt(h, s, p, false);
    if ok {
      p := ScanSpace(s, p);
      ok := At(s, p) == 0;
      assert ok <==> s[p..] == [];
    }
  }
}
