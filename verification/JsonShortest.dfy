/**
 How the compact printer spells: among all the texts of the grammar that mean a value, its printout is
 one of the shortest.
 */
module JsonShortest {
  import opened Utf8
  import opened JsonNumber
  import opened JsonString
  import opened JsonText
  import opened JsonGrammar

  // ----- Strings -----

  lemma UnescapedIsOneChar(p: Bytes)
    requires IsUnescaped(p)
    ensures OneChar(p)
  {
    assert p[..|p|] == p;
    ControlIsFirst(p);
  }

  /** A character of a literal means one character of the string. */
  lemma PieceMeansOneChar(p: Bytes)
    requires IsPiece(p)
    ensures OneChar(PieceMeaning(p))
  {
    hide WriteChar, OneChar, IsUnescaped, HexDigitValue, Code;
    if IsEscape(p) {
      AsciiIsOneChar(PieceMeaning(p)[0]);
    } else if IsUnicode(p) {
      WrittenIsOneChar(Code(p));
    } else if IsPair(p) {
      WrittenIsOneChar(0x10000 + (Code(p[..6]) - 0xD800) * 0x400 + (Code(p[6..]) - 0xDC00));
    } else {
      UnescapedIsOneChar(p);
    }
  }

  lemma AsciiIsOneChar(c: byte)
    requires 0 < c < 0x80
    ensures OneChar([c])
  {
  }

  /** No piece for a character is shorter than the one that is printed. */
  lemma PieceIsShortest(p: Bytes, rest: Bytes)
    requires IsPiece(p) && 0x1F !in PieceMeaning(p)
    ensures var m := PieceMeaning(p); var b := m + rest;
            m != [] && ValidateChar(b) == |m| && |EmitPiece(b)| <= |p|
  {
    hide ValidateChar, HexDigitValue, Code, WriteHex16;
    var m := PieceMeaning(p);
    PieceMeansOneChar(p);
    SamePrefixSameChar(m, rest);
    assert m[..|m|] == m && (m + rest)[..|m|] == m;
    assert m[0] == (m + rest)[0];
    hide IsCode, WriteChar;
    if |p| >= 6 { assert |m| <= 4 || m == p; }
  }

  lemma {:induction false} StringIsShortest(ps: seq<Bytes>, k: Bytes)
    requires ArePieces(ps) && 0x1F !in PiecesMeaning(ps)
    ensures var s := PiecesMeaning(ps); Validate(s) && |EmitChars(s)| + |k| <= |PiecesTo(ps, k)|
  {
    hide EmitPiece, PieceMeaning, ValidateChar, IsPiece;
    if ps != [] {
      var m, rest := PieceMeaning(ps[0]), PiecesMeaning(ps[1..]);
      assert 0x1F !in m && 0x1F !in rest by { assert forall c :: c in m || c in rest ==> c in m + rest; }
      StringIsShortest(ps[1..], k);
      PieceIsShortest(ps[0], rest);
      assert (m + rest)[|m|..] == rest;
    }
  }

  lemma QuotedIsShortest(ps: seq<Bytes>, k: Bytes)
    requires ArePieces(ps) && 0x1F !in PiecesMeaning(ps)
    ensures var s := PiecesMeaning(ps); Validate(s) && |EmitString(s)| + |k| <= |StringTo(ps, k)|
  {
    hide EmitChars, PiecesTo, PiecesMeaning, Validate;
    StringIsShortest(ps, [Ascii('"')] + k);
  }

  // ----- Values -----

  lemma {:induction false} PhraseIsShortest(d: Phrase, level: nat, k: Bytes)
    requires Grammatical(d) && Clean(Meaning(d))
    ensures ValidStrings(Meaning(d)) && |Emit(Meaning(d), Compact, level)| + |k| <= |SpellTo(d, k)|
    decreases d
  {
    hide EmitString, StringTo, PiecesMeaning, Validate, ParseNumber, IsNumber, EmitKids, MembersTo, MembersMeaning;
    match d
    case Literal(text) => Words(text);
    case Number(text) => ValidIffNumber(text);
    case Quoted(pieces) => QuotedIsShortest(pieces, k);
    case Nested(isObject, space, members) =>
      var c := [Ascii(if isObject then '}' else ']')] + k;
      NoMembers(isObject, c);
      if members.Member? {
        MembersAreShortest(isObject, members, level + 1, c);
      }
  }

  lemma MeaningOfMember(isObject: bool, m: Members)
    requires GrammaticalMembers(isObject, m)
    ensures MembersMeaning(isObject, m).Kid? <==> m.Member?
    ensures m.Member? ==>
              MembersMeaning(isObject, m) == Kid(if isObject then Key(PiecesMeaning(m.name)) else NoKey,
                                                 Meaning(m.value), MembersMeaning(isObject, m.more))
  {
  }

  lemma {:induction false} MembersAreShortest(isObject: bool, m: Members, level: nat, k: Bytes)
    requires GrammaticalMembers(isObject, m) && m.Member? && CleanKids(MembersMeaning(isObject, m))
    ensures var kids := MembersMeaning(isObject, m);
            kids.Kid? && ValidKids(kids) && |EmitKids(kids, Compact, level)| + |k| <= |MembersTo(isObject, m, k)|
    decreases m
  {
    hide Emit, EmitString, StringTo, PiecesMeaning, Validate, SpellTo, Meaning, MembersMeaning, Grammatical;
    MeaningOfMember(isObject, m);
    MeaningOfMember(isObject, m.more);
    var more := if m.more.NoMore? then k else [Ascii(',')] + (m.before + MembersTo(isObject, m.more, k));
    if m.more.Member? { MembersAreShortest(isObject, m.more, level, k); }
    PhraseIsShortest(m.value, level, m.after + more);
    var rest := SpellTo(m.value, m.after + more);
    if isObject { QuotedIsShortest(m.name, m.left + ([Ascii(':')] + (m.right + rest))); }
  }

  /** Theorem: the compact printout of a value means the value, and no text that means it is shorter. */
  lemma CompactIsShortest(t: Bytes, v: Json)
    requires 0 !in t && Denotes(t, v) && Clean(v)
    ensures ValidStrings(v) && Denotes(Emit(v, Compact, 0), v) && |Emit(v, Compact, 0)| <= |t|
  {
    hide Emit, SpellTo, Meaning, Grammatical, Decode, Denotes, Clean;
    DecodesMeaning(t, v);
    ReencodeRoundTrip(t, Compact);
    DecodesMeaning(Emit(v, Compact, 0), v);
    var d, after := PhraseOf(t, v);
    PhraseIsShortest(d, 0, after);
  }

  lemma PhraseOf(t: Bytes, v: Json) returns (d: Phrase, after: Bytes)
    requires Denotes(t, v)
    ensures Grammatical(d) && Meaning(d) == v && |SpellTo(d, after)| <= |t|
  {
    hide SpellTo, Meaning, Grammatical;
    var before, e, w :| Spells(t, before, e, w) && Meaning(e) == v;
    d, after := e, w;
  }
}
