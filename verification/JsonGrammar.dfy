/**
 The language of JSON texts (sections 2 to 7 of RFC 8259) and what each text means, by derivations
 that know nothing of the parser; and the proof that the parser reads exactly this language and
 gives every text its meaning. A phrase is spelled in front of the text `k` that follows it.
 */
module JsonGrammar {
  import opened Utf8
  import opened JsonNumber
  import opened JsonString
  import opened JsonText

  // ----- Characters of a literal -----

  function EscapeMap(): map<byte, byte> {
    map[Ascii('"') := Ascii('"'), Ascii('\\') := Ascii('\\'), Ascii('/') := Ascii('/'), Ascii('b') := 8,
        Ascii('f') := 12, Ascii('n') := Ascii('\n'), Ascii('r') := Ascii('\r'), Ascii('t') := Ascii('\t')]
  }

  predicate IsEscape(p: Bytes) { |p| == 2 && p[0] == Ascii('\\') && p[1] in EscapeMap() }

  const LOWER_HEX: string := "0123456789abcdef"
  const UPPER_HEX: string := "0123456789ABCDEF"

  /** Where the character stands in the string, or the length of the string. */
  function Position(s: string, c: byte): (i: nat)
    ensures i <= |s| && (i < |s| ==> s[i] as int == c) && forall k :: 0 <= k < i ==> s[k] as int != c
  {
    if s == "" || s[0] as int == c then 0
    else
      var i := Position(s[1..], c);
      assert forall k :: 1 <= k < i + 1 ==> s[k] == s[1..][k - 1];
      1 + i
  }

  lemma HexStrings(v: nat)
    requires v < 16
    ensures LOWER_HEX[v] as int == if v < 10 then 0x30 + v else 0x61 + (v - 10)
    ensures UPPER_HEX[v] as int == if v < 10 then 0x30 + v else 0x41 + (v - 10)
  {
  }

  /** A hexadecimal digit in either case, and what it counts. */
  function HexDigitValue(c: byte): (v: nat)
    ensures v < 16 <==> IsHex(c)
    ensures v < 16 ==> v == HexValue(c)
  {
    DigitPositions(c);
    var i := Position(LOWER_HEX, c);
    if i < 16 then i else Position(UPPER_HEX, c)
  }

  lemma DigitPositions(c: byte)
    ensures var i, j := Position(LOWER_HEX, c), Position(UPPER_HEX, c);
            var v := if i < 16 then i else j;
            (v < 16 <==> IsHex(c)) && (v < 16 ==> v == HexValue(c))
  {
    var i, j := Position(LOWER_HEX, c), Position(UPPER_HEX, c);
    if i < 16 { HexStrings(i); }
    if j < 16 { HexStrings(j); }
    if IsHex(c) { HexStrings(HexValue(c)); }
  }

  /** Every digit of either string is read as its position, and the upper one is what is written. */
  lemma HexDigitsRead(v: nat)
    requires v < 16
    ensures var a, b := LOWER_HEX[v] as int, UPPER_HEX[v] as int;
            && IsHex(a) && HexValue(a) == v && IsHex(b) && HexValue(b) == v && HexDigit(v) == b
  {
    HexStrings(v);
  }

  /** A backslash, `u` and four hexadecimal digits. */
  predicate IsCode(p: Bytes) {
    |p| == 6 && p[0] == Ascii('\\') && p[1] == Ascii('u') && forall i :: 2 <= i < 6 ==> HexDigitValue(p[i]) < 16
  }

  function Code(p: Bytes): (u: nat)
    requires IsCode(p)
    ensures u < 0x10000
  {
    HexDigitValue(p[2]) * 0x1000 + HexDigitValue(p[3]) * 0x100 + HexDigitValue(p[4]) * 0x10 + HexDigitValue(p[5])
  }

  /** RFC 8259 also has the code 0, which this program rejects. */
  predicate IsUnicode(p: Bytes) { IsCode(p) && Code(p) != 0 && !(0xD800 <= Code(p) <= 0xDFFF) }

  predicate IsPair(p: Bytes) {
    && |p| == 12 && IsCode(p[..6]) && IsCode(p[6..])
    && 0xD800 <= Code(p[..6]) <= 0xDBFF && 0xDC00 <= Code(p[6..]) <= 0xDFFF
  }

  /** One character of UTF-8 that needs no escape. */
  predicate IsUnescaped(p: Bytes) {
    p != [] && p[0] > 0x1F && p[0] != Ascii('"') && p[0] != Ascii('\\') && ValidateChar(p) == |p|
  }

  predicate IsPiece(p: Bytes) { IsEscape(p) || IsUnicode(p) || IsPair(p) || IsUnescaped(p) }

  function PieceMeaning(p: Bytes): Bytes
    requires IsPiece(p)
  {
    if IsEscape(p) then [EscapeMap()[p[1]]]
    else if IsUnicode(p) then WriteChar(Code(p))
    else if IsPair(p) then WriteChar(0x10000 + (Code(p[..6]) - 0xD800) * 0x400 + (Code(p[6..]) - 0xDC00))
    else p
  }

  predicate ArePieces(ps: seq<Bytes>) { forall i :: 0 <= i < |ps| ==> IsPiece(ps[i]) }

  function PiecesMeaning(ps: seq<Bytes>): Bytes
    requires ArePieces(ps)
  {
    if ps == [] then [] else PieceMeaning(ps[0]) + PiecesMeaning(ps[1..])
  }

  function PiecesTo(ps: seq<Bytes>, k: Bytes): Bytes {
    if ps == [] then k else ps[0] + PiecesTo(ps[1..], k)
  }

  function StringTo(ps: seq<Bytes>, k: Bytes): Bytes { [Ascii('"')] + PiecesTo(ps, [Ascii('"')] + k) }

  // ----- Values -----

  /** The text is the word. */
  predicate Says(text: Bytes, word: string) {
    |text| == |word| && forall i :: 0 <= i < |word| ==> text[i] == word[i] as int
  }

  lemma Words(text: Bytes)
    ensures Says(text, "null") <==> text == LIT_NULL
    ensures Says(text, "true") <==> text == LIT_TRUE
    ensures Says(text, "false") <==> text == LIT_FALSE
  {
  }

  predicate Blank(w: Bytes): (r: bool)
    ensures r == AllSpace(w)
  {
    forall i :: 0 <= i < |w| ==>
      w[i] == Ascii(' ') || w[i] == Ascii('\t') || w[i] == Ascii('\n') || w[i] == Ascii('\r')
  }

  datatype Phrase =
    | Literal(text: Bytes)
    | Number(text: Bytes)
    | Quoted(pieces: seq<Bytes>)
    | Nested(isObject: bool, space: Bytes, members: Members)

  /** `left` and `right` stand around the colon, `after` behind the value, and `before` behind the comma. */
  datatype Members =
    | NoMore
    | Member(name: seq<Bytes>, left: Bytes, right: Bytes, value: Phrase, after: Bytes, before: Bytes, more: Members)

  function SpellTo(d: Phrase, k: Bytes): Bytes
    decreases d
  {
    match d
    case Literal(text) => text + k
    case Number(text) => text + k
    case Quoted(pieces) => StringTo(pieces, k)
    case Nested(isObject, space, members) =>
      [Ascii(if isObject then '{' else '[')]
      + (space + MembersTo(isObject, members, [Ascii(if isObject then '}' else ']')] + k))
  }

  function MembersTo(isObject: bool, m: Members, k: Bytes): Bytes
    decreases m
  {
    match m
    case NoMore => k
    case Member(name, left, right, value, after, before, more) =>
      NameTo(isObject, name, left, right,
             SpellTo(value, after + if more.NoMore? then k else [Ascii(',')] + (before + MembersTo(isObject, more, k))))
  }

  function NameTo(isObject: bool, name: seq<Bytes>, left: Bytes, right: Bytes, k: Bytes): Bytes {
    if isObject then StringTo(name, left + ([Ascii(':')] + (right + k))) else k
  }

  ghost predicate Grammatical(d: Phrase)
    decreases d
  {
    match d
    case Literal(text) => Says(text, "null") || Says(text, "false") || Says(text, "true")
    case Number(text) => IsNumber(text)
    case Quoted(pieces) => ArePieces(pieces)
    case Nested(isObject, space, members) => Blank(space) && GrammaticalMembers(isObject, members)
  }

  ghost predicate GrammaticalMembers(isObject: bool, m: Members)
    decreases m
  {
    match m
    case NoMore => true
    case Member(name, left, right, value, after, before, more) =>
      && GrammaticalName(isObject, name, left, right) && Grammatical(value)
      && Blank(after) && Blank(before) && GrammaticalMembers(isObject, more)
  }

  predicate GrammaticalName(isObject: bool, name: seq<Bytes>, left: Bytes, right: Bytes) {
    isObject ==> ArePieces(name) && Blank(left) && Blank(right)
  }

  ghost function Meaning(d: Phrase): Json
    requires Grammatical(d)
    decreases d
  {
    match d
    case Literal(text) => if Says(text, "null") then Null else Bool(Says(text, "true"))
    case Number(text) => Num(text)
    case Quoted(pieces) => Str(PiecesMeaning(pieces))
    case Nested(isObject, _, members) => Coll(isObject, MembersMeaning(isObject, members))
  }

  ghost function MembersMeaning(isObject: bool, m: Members): Kids
    requires GrammaticalMembers(isObject, m)
    decreases m
  {
    match m
    case NoMore => Nil
    case Member(name, _, _, value, _, _, more) =>
      Kid(if isObject then Key(PiecesMeaning(name)) else NoKey, Meaning(value), MembersMeaning(isObject, more))
  }

  /** `t` is one value meaning `v`, with white space around it. */
  ghost predicate Denotes(t: Bytes, v: Json) {
    exists before, d, after :: Spells(t, before, d, after) && Meaning(d) == v
  }

  ghost predicate Spells(t: Bytes, before: Bytes, d: Phrase, after: Bytes) {
    Blank(before) && Grammatical(d) && Blank(after) && t == before + SpellTo(d, after)
  }

  // ----- What is grammatical is read -----

  lemma ReadsCode(p: Bytes, k: Bytes)
    requires IsCode(p)
    ensures ParseHex((p + k)[2..], 4, 0) == Hex(Code(p), k)
  {
    hide HexDigitValue, HexValue, IsHex, ParseHex;
    var t := (p + k)[2..];
    assert t[0] == p[2] && t[1] == p[3] && t[2] == p[4] && t[3] == p[5] && t[4..] == k;
    ReadsDigits(t, k);
  }

  lemma ReadsDigits(t: Bytes, k: Bytes)
    requires |t| >= 4 && t[4..] == k && IsHex(t[0]) && IsHex(t[1]) && IsHex(t[2]) && IsHex(t[3])
    ensures ParseHex(t, 4, 0)
            == Hex(HexValue(t[0]) * 0x1000 + HexValue(t[1]) * 0x100 + HexValue(t[2]) * 0x10 + HexValue(t[3]), k)
  {
    hide HexValue, IsHex;
    assert t[1..][1..] == t[2..] && t[2..][1..] == t[3..] && t[3..][1..] == t[4..];
    var a, b, c, d := HexValue(t[0]), HexValue(t[1]), HexValue(t[2]), HexValue(t[3]);
    assert ParseHex(t[3..], 1, (a * 16 + b) * 16 + c) == Hex(((a * 16 + b) * 16 + c) * 16 + d, k);
    assert ParseHex(t[2..], 2, a * 16 + b) == ParseHex(t[3..], 1, (a * 16 + b) * 16 + c);
    assert ParseHex(t[1..], 3, a) == ParseHex(t[2..], 2, a * 16 + b);
  }

  /** The digits of `v` in either case, or mixed. */
  predicate Digits(t: Bytes, v: seq<nat>) {
    |t| >= |v| && forall i :: 0 <= i < |v| ==>
      v[i] < 16 && (t[i] == LOWER_HEX[v[i]] as int || t[i] == UPPER_HEX[v[i]] as int)
  }

  /** Four digits, whatever their cases, are read as the number they spell in radix 16. */
  lemma MixedDigits(t: Bytes, v: seq<nat>)
    requires |v| == 4 && Digits(t, v)
    ensures ParseHex(t, 4, 0) == Hex(v[0] * 0x1000 + v[1] * 0x100 + v[2] * 0x10 + v[3], t[4..])
  {
    hide HexValue, IsHex, ParseHex;
    forall i | 0 <= i < 4 ensures IsHex(t[i]) && HexValue(t[i]) == v[i] { HexDigitsRead(v[i]); }
    ReadsDigits(t, t[4..]);
  }

  lemma ReadsUnicode(p: Bytes, k: Bytes)
    requires IsUnicode(p)
    ensures ParsePiece(p + k) == Piece(WriteChar(Code(p)), k)
  {
    hide ParseHex, Code, WriteChar, FromPair, HexDigitValue, IsHex;
    var t := p + k;
    ReadsCode(p, k);
    assert t[1..][1..] == t[2..];
  }

  lemma ReadsPair(p: Bytes, k: Bytes)
    requires IsPair(p)
    ensures ParsePiece(p + k) == Piece(PieceMeaning(p), k)
  {
    hide ParseHex, Code, WriteChar, IsHex, ParseUnicode;
    var t, hi, lo := p + k, p[..6], p[6..];
    assert t == hi + (lo + k);
    ReadsCode(hi, lo + k);
    ReadsCode(lo, k);
    assert t[1..][1..] == t[2..];
    PairIsJoined(t[2..], lo + k, Code(hi), Code(lo), k);
  }

  lemma PairIsJoined(t: Bytes, r: Bytes, hi: nat, lo: nat, k: Bytes)
    requires ParseHex(t, 4, 0) == Hex(hi, r) && 0xD800 <= hi <= 0xDBFF
    requires |r| >= 2 && r[0] == BACKSLASH && r[1] == LETTER_U
    requires ParseHex(r[2..], 4, 0) == Hex(lo, k) && 0xDC00 <= lo <= 0xDFFF
    ensures ParseUnicode(t) == Piece(WriteChar(0x10000 + (hi - 0xD800) * 0x400 + (lo - 0xDC00)), k)
  {
    hide ParseHex, WriteChar;
    assert r[1..][0] == LETTER_U;
  }

  lemma ReadsPiece(p: Bytes, k: Bytes)
    requires IsPiece(p)
    ensures ParsePiece(p + k) == Piece(PieceMeaning(p), k) && p != [] && p[0] != QUOTE
  {
    if IsPair(p) {
      ReadsPair(p, k);
    } else if IsEscape(p) {
      assert (p + k)[1..][1..] == k;
      hide ParseUnicode;
    } else if IsUnicode(p) {
      ReadsUnicode(p, k);
    } else {
      assert p[..ValidateChar(p)] == p;
      SamePrefixSameChar(p, k);
      assert (p + k)[|p|..] == k;
      hide ValidateChar;
    }
  }

  lemma {:induction false} ReadsPieces(ps: seq<Bytes>, k: Bytes)
    requires ArePieces(ps)
    ensures ParseChars(PiecesTo(ps, [QUOTE] + k)) == Chars(PiecesMeaning(ps), k)
  {
    hide ParsePiece, IsPiece, PieceMeaning;
    if ps != [] {
      ReadsPiece(ps[0], PiecesTo(ps[1..], [QUOTE] + k));
      ReadsPieces(ps[1..], k);
    } else {
      assert ([QUOTE] + k)[1..] == k;
    }
  }

  lemma ReadsString(ps: seq<Bytes>, k: Bytes)
    requires ArePieces(ps)
    ensures var t := StringTo(ps, k); t != [] && t[0] == QUOTE && ParseString(t) == Chars(PiecesMeaning(ps), k)
  {
    ReadsPieces(ps, k);
    assert StringTo(ps, k)[1..] == PiecesTo(ps, [QUOTE] + k);
    hide ParseChars, PiecesTo;
  }

  lemma ReadsScalar(d: Phrase, k: Bytes)
    requires Grammatical(d) && !d.Nested? && EndsNumber(k)
    ensures StartsValue(SpellTo(d, k)) && ParseValue(SpellTo(d, k)) == Ok(Meaning(d), k)
  {
    hide ParseColl, ParseNumber, ParseString, StringTo, EndsNumber, Says, ParseValue, StartsValue;
    match d
    case Quoted(pieces) =>
      ReadsString(pieces, k);
      ReadsQuoted(StringTo(pieces, k), PiecesMeaning(pieces), k);
    case Number(text) =>
      ValidIffNumber(text);
      NumberRoundTrip(text, k);
      StartsEarly(text, k);
    case Literal(text) =>
      Words(text);
      ReadsWord(text, k);
  }

  lemma ReadsQuoted(t: Bytes, s: Bytes, k: Bytes)
    requires t != [] && t[0] == QUOTE && ParseString(t) == Chars(s, k)
    ensures StartsValue(t) && ParseValue(t) == Ok(Str(s), k)
  {
    hide ParseString, ParseColl;
  }

  lemma StartsEarly(t: Bytes, k: Bytes)
    requires StartsValue(t)
    ensures StartsValue(t + k)
  {
  }

  lemma ReadsWord(text: Bytes, k: Bytes)
    requires text == LIT_NULL || text == LIT_TRUE || text == LIT_FALSE
    ensures StartsValue(text + k)
    ensures ParseValue(text + k) == Ok(if text == LIT_NULL then Null else Bool(text == LIT_TRUE), k)
  {
    hide ParseColl, ParseNumber, ParseString;
    assert (text + k)[..|text|] == text && (text + k)[|text|..] == k;
  }

  lemma ReadsName(isObject: bool, name: seq<Bytes>, left: Bytes, right: Bytes, k: Bytes)
    requires GrammaticalName(isObject, name, left, right) && StartsValue(k)
    ensures var t := NameTo(isObject, name, left, right, k);
            && StartsValue(t)
            && ParseKey(isObject, t) == GoodKey(if isObject then Key(PiecesMeaning(name)) else NoKey, k)
  {
    hide ParseString, StringTo, SkipSpace;
    if isObject {
      var u := [COLON] + (right + k);
      ReadsString(name, left + u);
      SkipsSpace(left, u);
      assert u[1..] == right + k;
      SkipsSpace(right, k);
    }
  }

  /** What is grammatical is read to its end, and gets its meaning. */
  lemma {:induction false} ReadsPhrase(d: Phrase, k: Bytes)
    requires Grammatical(d) && EndsNumber(k)
    ensures StartsValue(SpellTo(d, k)) && ParseValue(SpellTo(d, k)) == Ok(Meaning(d), k)
    decreases d
  {
    hide StartsValue, ParseValue, SpellTo, Meaning, EndsNumber;
    if d.Nested? {
      if d.members.Member? { ReadsMembers(d.isObject, d.members, k); }
      ReadsNested(d, k);
    } else {
      ReadsScalar(d, k);
    }
  }

  lemma ReadsNested(d: Phrase, k: Bytes)
    requires Grammatical(d) && d.Nested?
    requires d.members.Member? ==>
               var t := MembersTo(d.isObject, d.members, [Closing(d.isObject)] + k);
               StartsValue(t) && ParseKids(d.isObject, t) == SomeKids(MembersMeaning(d.isObject, d.members), k)
    ensures StartsValue(SpellTo(d, k)) && ParseValue(SpellTo(d, k)) == Ok(Meaning(d), k)
  {
    hide ParseKids, MembersTo, MembersMeaning, GrammaticalMembers;
    var c := [Closing(d.isObject)] + k;
    var body := MembersTo(d.isObject, d.members, c);
    NoMembers(d.isObject, c);
    SkipsSpace(d.space, body);
    assert SpellTo(d, k)[1..] == d.space + body;
    assert c[1..] == k;
    hide SkipSpace;
  }

  lemma NoMembers(isObject: bool, k: Bytes)
    ensures MembersTo(isObject, NoMore, k) == k && MembersMeaning(isObject, NoMore) == Nil
  {
  }

  lemma {:induction false} ReadsMembers(isObject: bool, m: Members, k: Bytes)
    requires GrammaticalMembers(isObject, m) && m.Member?
    ensures var t := MembersTo(isObject, m, [Closing(isObject)] + k);
            StartsValue(t) && ParseKids(isObject, t) == SomeKids(MembersMeaning(isObject, m), k)
    decreases m
  {
    hide StartsValue, ParseKids, MembersTo, MembersMeaning, ParseValue, SpellTo, Meaning, Grammatical;
    if m.more.Member? { ReadsMembers(isObject, m.more, k); }
    ReadsAfter(isObject, m, k);
    ReadsPhrase(m.value, AfterValue(isObject, m, k));
    ReadsMember(isObject, m, k);
  }

  /** What follows the value of the first member. */
  function AfterValue(isObject: bool, m: Members, k: Bytes): Bytes
    requires m.Member?
  {
    var c := [Closing(isObject)] + k;
    m.after + if m.more.NoMore? then c else [COMMA] + (m.before + MembersTo(isObject, m.more, c))
  }

  lemma ReadsAfter(isObject: bool, m: Members, k: Bytes)
    requires m.Member? && AllSpace(m.after) && AllSpace(m.before)
    requires m.more.Member? ==> StartsValue(MembersTo(isObject, m.more, [Closing(isObject)] + k))
    ensures var t := AfterValue(isObject, m, k);
            var x := SkipSpace(t);
            && EndsNumber(t) && x != []
            && (m.more.NoMore? ==> x[0] == Closing(isObject) && x[1..] == k)
            && (m.more.Member? ==> x[0] == COMMA
                                   && SkipSpace(x[1..]) == MembersTo(isObject, m.more, [Closing(isObject)] + k))
  {
    hide MembersTo, SkipSpace;
    var c := [Closing(isObject)] + k;
    if m.more.NoMore? {
      SkipsSpace(m.after, c);
    } else {
      var more := MembersTo(isObject, m.more, c);
      SkipsSpace(m.after, [COMMA] + (m.before + more));
      assert ([COMMA] + (m.before + more))[1..] == m.before + more;
      SkipsSpace(m.before, more);
    }
  }

  lemma ReadsMember(isObject: bool, m: Members, k: Bytes)
    requires GrammaticalMembers(isObject, m) && m.Member?
    requires var t := AfterValue(isObject, m, k);
             StartsValue(SpellTo(m.value, t)) && ParseValue(SpellTo(m.value, t)) == Ok(Meaning(m.value), t)
    requires var x := SkipSpace(AfterValue(isObject, m, k));
             && x != []
             && (m.more.NoMore? ==> x[0] == Closing(isObject) && x[1..] == k)
             && (m.more.Member? ==> x[0] == COMMA
                                    && ParseKids(isObject, SkipSpace(x[1..]))
                                       == SomeKids(MembersMeaning(isObject, m.more), k))
    ensures var t := MembersTo(isObject, m, [Closing(isObject)] + k);
            StartsValue(t) && ParseKids(isObject, t) == SomeKids(MembersMeaning(isObject, m), k)
  {
    hide StartsValue, ParseKey, ParseValue, SpellTo, Meaning, Grammatical, NameTo, SkipSpace;
    var u := SpellTo(m.value, AfterValue(isObject, m, k));
    ReadsName(isObject, m.name, m.left, m.right, u);
    assert MembersTo(isObject, m, [Closing(isObject)] + k) == NameTo(isObject, m.name, m.left, m.right, u);
  }

  // ----- What is read is grammatical -----

  lemma {:induction false} HexText(t: Bytes, n: nat, acc: nat)
    requires ParseHex(t, n, acc).Hex?
    ensures |t| >= n && forall i :: 0 <= i < n ==> IsHex(t[i])
  {
    if n > 0 {
      HexText(t[1..], n - 1, acc * 16 + HexValue(t[0]));
      assert forall i :: 1 <= i < n ==> t[i] == t[1..][i - 1];
    }
  }

  lemma CodeText(t: Bytes)
    requires |t| >= 2 && t[0] == BACKSLASH && t[1] == LETTER_U && ParseHex(t[2..], 4, 0).Hex?
    ensures |t| >= 6 && IsCode(t[..6]) && ParseHex(t[2..], 4, 0) == Hex(Code(t[..6]), t[6..])
  {
    HexText(t[2..], 4, 0);
    assert t[2..][..4] == t[2..6];
    var p := t[..6];
    assert forall i :: 2 <= i < 6 ==> p[i] == t[2..6][i - 2];
    assert t == p + t[6..];
    ReadsCode(p, t[6..]);
  }

  lemma UnicodeText(t: Bytes) returns (p: Bytes)
    requires |t| >= 2 && t[0] == BACKSLASH && t[1] == LETTER_U && ParseUnicode(t[2..]).Piece?
    ensures IsPiece(p) && t == p + ParseUnicode(t[2..]).rest
  {
    hide Code, IsCode, ParseHex, WriteChar;
    CodeText(t);
    p := t[..6];
    if 0xD800 <= Code(p) <= 0xDFFF {
      var r := t[6..];
      CodeText(r);
      p := t[..12];
      assert p[..6] == t[..6] && p[6..] == r[..6];
      assert t[12..] == r[6..];
    }
  }

  lemma PieceText(t: Bytes) returns (p: Bytes)
    requires ParsePiece(t).Piece? && At(t, 0) != QUOTE
    ensures IsPiece(p) && t == p + ParsePiece(t).rest
  {
    hide IsPiece, ParseUnicode, ParsePiece, ValidateChar;
    if At(t, 0) != BACKSLASH {
      p := UnescapedText(t);
    } else if At(t[1..], 0) != LETTER_U {
      p := EscapeText(t);
    } else {
      AfterCode(t);
      p := UnicodeText(t);
    }
  }

  lemma AfterCode(t: Bytes)
    requires At(t, 0) == BACKSLASH && At(t[1..], 0) == LETTER_U
    ensures |t| >= 2 && t[1] == LETTER_U && ParsePiece(t) == ParseUnicode(t[2..])
  {
    hide ParseUnicode;
    assert t[1..][1..] == t[2..];
  }

  lemma EscapeText(t: Bytes) returns (p: Bytes)
    requires ParsePiece(t).Piece? && At(t, 0) == BACKSLASH && At(t[1..], 0) != LETTER_U
    ensures IsPiece(p) && t == p + ParsePiece(t).rest
  {
    hide ParseUnicode, IsUnicode, IsPair, IsUnescaped;
    assert t[1..][1..] == t[2..];
    p := t[..2];
    assert IsEscape(p);
  }

  lemma UnescapedText(t: Bytes) returns (p: Bytes)
    requires ParsePiece(t).Piece? && At(t, 0) != QUOTE && At(t, 0) != BACKSLASH
    ensures IsPiece(p) && t == p + ParsePiece(t).rest
  {
    hide IsEscape, IsUnicode, IsPair, ValidateChar;
    p := t[..ValidateChar(t)];
    SamePrefixSameChar(t, []);
    assert p + [] == p;
    assert IsUnescaped(p);
  }

  lemma {:induction false} CharsText(t: Bytes) returns (ps: seq<Bytes>)
    requires ParseChars(t).Chars?
    ensures ArePieces(ps) && t == PiecesTo(ps, [QUOTE] + ParseChars(t).rest)
    decreases |t|
  {
    hide ParsePiece, IsPiece;
    if At(t, 0) == QUOTE {
      ps := [];
    } else {
      PieceIsSuffix(t);
      var p := PieceText(t);
      var more := CharsText(ParsePiece(t).rest);
      ps := [p] + more;
      assert ps[1..] == more;
    }
  }

  lemma StringText(t: Bytes) returns (ps: seq<Bytes>)
    requires ParseString(t).Chars?
    ensures ArePieces(ps) && t == StringTo(ps, ParseString(t).rest)
  {
    hide ParseChars, PiecesTo;
    ps := CharsText(t[1..]);
  }

  lemma {:induction false} SpaceText(t: Bytes) returns (w: Bytes)
    ensures AllSpace(w) && t == w + SkipSpace(t)
  {
    if IsSpace(At(t, 0)) {
      w := SpaceText(t[1..]);
      w := [t[0]] + w;
    } else {
      w := [];
    }
  }

  lemma ScalarText(t: Bytes) returns (d: Phrase)
    requires ParseScalar(t).Ok?
    ensures Grammatical(d) && t == SpellTo(d, ParseScalar(t).rest)
  {
    hide ParseString, ParseNumber, StringTo;
    var c := At(t, 0);
    if c == QUOTE {
      var ps := StringText(t);
      d := Quoted(ps);
    } else if c == 0x6E {
      d := Literal(LIT_NULL);
    } else if c == 0x66 {
      d := Literal(LIT_FALSE);
    } else if c == 0x74 {
      d := Literal(LIT_TRUE);
    } else {
      var num := NumberText(t);
      d := Number(num);
    }
  }

  lemma NameText(isObject: bool, t: Bytes) returns (name: seq<Bytes>, left: Bytes, right: Bytes)
    requires ParseKey(isObject, t).GoodKey?
    ensures GrammaticalName(isObject, name, left, right)
    ensures t == NameTo(isObject, name, left, right, ParseKey(isObject, t).rest)
  {
    hide ParseString, StringTo, SkipSpace;
    name, left, right := [], [], [];
    if isObject {
      var rest := ParseString(t).rest;
      name := StringText(t);
      left := SpaceText(rest);
      var u := SkipSpace(rest);
      right := SpaceText(u[1..]);
      assert u == [COLON] + (right + SkipSpace(u[1..]));
    }
  }

  /** What is read is a phrase of the grammar. */
  lemma {:induction false} PhraseText(t: Bytes) returns (d: Phrase)
    requires ParseValue(t).Ok?
    ensures Grammatical(d) && t == SpellTo(d, ParseValue(t).rest)
    decreases |t|, 0
  {
    hide ParseKids, ParseScalar, SkipSpace;
    var c := At(t, 0);
    if c == Opening(false) || c == Opening(true) {
      var isObject := c == Opening(true);
      var u := SkipSpace(t[1..]);
      var space := SpaceText(t[1..]);
      var m := NoMore;
      if At(u, 0) != Closing(isObject) {
        m := MembersText(isObject, u);
      }
      d := Nested(isObject, space, m);
      NestedText(t, isObject, space, m, ParseValue(t).rest);
    } else {
      d := ScalarText(t);
    }
  }

  lemma NestedText(t: Bytes, isObject: bool, space: Bytes, m: Members, k: Bytes)
    requires t != [] && t[0] == Opening(isObject) && t[1..] == space + MembersTo(isObject, m, [Closing(isObject)] + k)
    ensures t == SpellTo(Nested(isObject, space, m), k)
  {
    hide MembersTo;
  }

  lemma {:induction false} MembersText(isObject: bool, t: Bytes) returns (m: Members)
    requires ParseKids(isObject, t).SomeKids?
    ensures m.Member? && GrammaticalMembers(isObject, m)
    ensures t == MembersTo(isObject, m, [Closing(isObject)] + ParseKids(isObject, t).rest)
    decreases |t|, 1
  {
    hide ParseKey, ParseValue, SkipSpace, NameTo, SpellTo, Grammatical, GrammaticalName;
    var name, left, right := NameText(isObject, t);
    var u := ParseKey(isObject, t).rest;
    var d := PhraseText(u);
    var w := ParseValue(u).rest;
    var after := SpaceText(w);
    var x := SkipSpace(w);
    var before, more := [], NoMore;
    if At(x, 0) != Closing(isObject) {
      before := SpaceText(x[1..]);
      more := MembersText(isObject, SkipSpace(x[1..]));
    }
    m := Member(name, left, right, d, after, before, more);
    assert w == AfterValue(isObject, m, ParseKids(isObject, t).rest) by { hide ParseKids; }
  }

  /** Theorem: decoding yields exactly what the text denotes, for every text. */
  lemma DecodesMeaning(t: Bytes, v: Json)
    ensures Decode(t) == Valid(v) <==> Denotes(t, v)
  {
    hide ParseValue, SkipSpace, SpellTo, Meaning, Grammatical, StartsValue;
    if Decode(t).Valid? {
      var before := SpaceText(t);
      var u := SkipSpace(t);
      var d := PhraseText(u);
      var after := SpaceText(ParseValue(u).rest);
      assert ParseValue(u).rest == after + [] == after;
      assert Spells(t, before, d, after);
      SpelledIsRead(t, before, d, after);
    }
    if Denotes(t, v) {
      var before, d, after :| Spells(t, before, d, after) && Meaning(d) == v;
      SpelledIsRead(t, before, d, after);
    }
  }

  lemma SpelledIsRead(t: Bytes, before: Bytes, d: Phrase, after: Bytes)
    requires Spells(t, before, d, after)
    ensures Decode(t) == Valid(Meaning(d))
  {
    hide ParseValue, SpellTo, Meaning, Grammatical;
    SpaceEnds(after);
    ReadsPhrase(d, after);
    SkipsSpace(before, SpellTo(d, after));
    hide SkipSpace;
  }

  lemma SpaceEnds(w: Bytes)
    requires AllSpace(w)
    ensures EndsNumber(w) && SkipSpace(w) == []
  {
    SkipsSpace(w, []);
    assert w + [] == w;
  }

  ghost predicate IsJsonText(t: Bytes) { exists v :: Denotes(t, v) }

  /** Theorem: the accepted texts are those of the grammar. */
  lemma AcceptsJsonTexts(t: Bytes)
    ensures Decode(t).Valid? <==> IsJsonText(t)
  {
    hide Decode, Denotes;
    if Decode(t).Valid? { DecodesMeaning(t, Decode(t).value); }
    if IsJsonText(t) {
      var v :| Denotes(t, v);
      DecodesMeaning(t, v);
    }
  }

  /** Theorem: no text has two meanings. */
  lemma OneMeaning(t: Bytes, v: Json, w: Json)
    requires Denotes(t, v) && Denotes(t, w)
    ensures v == w
  {
    hide Decode, Denotes;
    DecodesMeaning(t, v);
    DecodesMeaning(t, w);
  }
}
