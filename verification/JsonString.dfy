/**
 String literals (section 7 of RFC 8259): the printer's escapes and the parser that undoes them.
 */
module JsonString {
  import opened Utf8

  const QUOTE: byte := 0x22
  const BACKSLASH: byte := 0x5C
  const SLASH: byte := 0x2F
  const LETTER_U: byte := 0x75

  // ----- Four hexadecimal digits -----

  datatype HexResult = NoHex | Hex(val: nat, rest: Bytes)

  predicate IsHex(c: byte) { 0x30 <= c <= 0x39 || 0x41 <= c <= 0x46 || 0x61 <= c <= 0x66 }

  function HexValue(c: byte): (v: nat)
    requires IsHex(c)
    ensures v < 16
  {
    if c <= 0x39 then c - 0x30 else if c <= 0x46 then c - 0x41 + 10 else c - 0x61 + 10
  }

  function HexDigit(v: nat): (c: byte)
    requires v < 16
    ensures IsHex(c) && HexValue(c) == v
  {
    if v < 10 then 0x30 + v else 0x41 + (v - 10)
  }

  /** `n` more digits after the value `acc`. */
  function ParseHex(t: Bytes, n: nat, acc: nat): (r: HexResult)
    ensures r.Hex? ==> n <= |t| && r.rest == t[n..]
  {
    if n == 0 then Hex(acc, t)
    else if !IsHex(At(t, 0)) then NoHex
    else ParseHex(t[1..], n - 1, acc * 16 + HexValue(t[0]))
  }

  /** Four digits fit in 16 bits. */
  lemma {:induction false} HexFits(t: Bytes, n: nat, acc: nat)
    requires n <= 4 && ParseHex(t, n, acc).Hex?
    requires acc < if n == 4 then 1 else if n == 3 then 0x10 else if n == 2 then 0x100
                   else if n == 1 then 0x1000 else 0x10000
    ensures ParseHex(t, n, acc).val < 0x10000
  {
    if n > 0 { HexFits(t[1..], n - 1, acc * 16 + HexValue(t[0])); }
  }

  function WriteHex16(v: nat): (w: Bytes)
    requires v < 0x10000
    ensures |w| == 4
  {
    [HexDigit(v / 0x1000 % 16), HexDigit(v / 0x100 % 16), HexDigit(v / 0x10 % 16), HexDigit(v % 16)]
  }

  lemma HexDigitsOf(v: nat)
    requires v < 0x10000
    ensures ((v / 0x1000 % 16 * 16 + v / 0x100 % 16) * 16 + v / 0x10 % 16) * 16 + v % 16 == v
  {
    assert v / 0x100 == v / 0x10 / 16;
    assert v / 0x1000 == v / 0x100 / 16;
  }

  /** Reading four digits inverts writing them. */
  lemma HexRoundTrip(v: nat, k: Bytes)
    requires v < 0x10000
    ensures ParseHex(WriteHex16(v) + k, 4, 0) == Hex(v, k)
  {
    var w := WriteHex16(v);
    var t := w + k;
    assert t[1..] == w[1..] + k && t[2..] == w[2..] + k && t[3..] == w[3..] + k && t[4..] == k;
    assert t[1..][1..] == t[2..] && t[2..][1..] == t[3..] && t[3..][1..] == t[4..];
    HexDigitsOf(v);
    var a, b, c, d := v / 0x1000 % 16, v / 0x100 % 16, v / 0x10 % 16, v % 16;
    calc {
      ParseHex(t, 4, 0);
      ParseHex(t[1..], 3, a);
      ParseHex(t[2..], 2, a * 16 + b);
      ParseHex(t[3..], 1, (a * 16 + b) * 16 + c);
      ParseHex(t[4..], 0, ((a * 16 + b) * 16 + c) * 16 + d);
    }
  }

  // ----- Parsing -----

  /** One character of a literal: the bytes it stands for and the remaining text. */
  datatype Piece = BadPiece | Piece(out: Bytes, rest: Bytes)

  predicate IsSuffix(r: Bytes, t: Bytes) { |r| < |t| && r == t[|t| - |r|..] }

  /** After `\u`. */
  function ParseUnicode(t: Bytes): Piece {
    match ParseHex(t, 4, 0)
    case NoHex => BadPiece
    case Hex(uc, r) =>
      if 0xD800 <= uc <= 0xDFFF then
        if At(r, 0) != BACKSLASH || At(r[1..], 0) != LETTER_U then BadPiece else
          match ParseHex(r[2..], 4, 0)
          case NoHex => BadPiece
          case Hex(lc, r2) =>
            match FromPair(uc, lc)
            case NotAPair => BadPiece
            case Scalar(u) => SplitInvertsJoin(uc, lc); Piece(WriteChar(u), r2)
      else if uc == 0 then BadPiece
      else HexFits(t, 4, 0); Piece(WriteChar(uc), r)
  }

  /** After a backslash. */
  function ParseEscape(t: Bytes): Piece {
    match At(t, 0)
    case 0x22 => Piece([QUOTE], t[1..])
    case 0x5C => Piece([BACKSLASH], t[1..])
    case 0x2F => Piece([SLASH], t[1..])
    case 0x62 => Piece([8], t[1..])
    case 0x66 => Piece([12], t[1..])
    case 0x6E => Piece([10], t[1..])
    case 0x72 => Piece([13], t[1..])
    case 0x74 => Piece([9], t[1..])
    case 0x75 => ParseUnicode(t[1..])
    case _ => BadPiece
  }

  function ParsePiece(t: Bytes): Piece {
    var c := At(t, 0);
    if c == BACKSLASH then ParseEscape(t[1..])
    else if c <= 0x1F || ValidateChar(t) == 0 then BadPiece
    else Piece(t[..ValidateChar(t)], t[ValidateChar(t)..])
  }

  lemma PieceIsSuffix(t: Bytes)
    requires ParsePiece(t).Piece?
    ensures IsSuffix(ParsePiece(t).rest, t)
  {
  }

  /** The literal up to its closing quote. */
  datatype Chars = BadChars | Chars(out: Bytes, rest: Bytes)

  function ParseChars(t: Bytes): Chars
    decreases |t|
  {
    if At(t, 0) == QUOTE then Chars([], t[1..]) else
      match ParsePiece(t)
      case BadPiece => BadChars
      case Piece(out, rest) =>
        PieceIsSuffix(t);
        match ParseChars(rest)
        case BadChars => BadChars
        case Chars(more, end) => Chars(out + more, end)
  }

  function ParseString(t: Bytes): Chars {
    if At(t, 0) != QUOTE then BadChars else ParseChars(t[1..])
  }

  lemma {:induction false} CharsIsSuffix(t: Bytes)
    requires ParseChars(t).Chars?
    ensures IsSuffix(ParseChars(t).rest, t)
    decreases |t|
  {
    hide ParsePiece;
    if At(t, 0) != QUOTE {
      PieceIsSuffix(t);
      CharsIsSuffix(ParsePiece(t).rest);
    }
  }

  lemma StringIsSuffix(t: Bytes)
    requires ParseString(t).Chars?
    ensures IsSuffix(ParseString(t).rest, t)
  {
    CharsIsSuffix(t[1..]);
  }

  // ----- Printing -----

  /** One character of a valid string. All other control characters below 0x1F become `\u` escapes;
      0x1F itself is printed as it is. */
  function EmitPiece(b: Bytes): Bytes
    requires b != [] && ValidateChar(b) != 0
  {
    match b[0]
    case 0x22 => [BACKSLASH, QUOTE]
    case 0x5C => [BACKSLASH, BACKSLASH]
    case 8 => [BACKSLASH, 0x62]
    case 12 => [BACKSLASH, 0x66]
    case 10 => [BACKSLASH, 0x6E]
    case 13 => [BACKSLASH, 0x72]
    case 9 => [BACKSLASH, 0x74]
    case c => if c < 0x1F then [BACKSLASH, LETTER_U] + WriteHex16(c) else b[..ValidateChar(b)]
  }

  function EmitChars(b: Bytes): Bytes
    requires Validate(b)
  {
    if b == [] then [] else EmitPiece(b) + EmitChars(b[ValidateChar(b)..])
  }

  function EmitString(b: Bytes): Bytes
    requires Validate(b)
  {
    [QUOTE] + EmitChars(b) + [QUOTE]
  }

  // ----- Round trip -----

  /** Parsing inverts printing, one character at a time, except for 0x1F. */
  lemma PieceRoundTrip(b: Bytes, k: Bytes)
    requires b != [] && ValidateChar(b) != 0 && b[0] != 0
    ensures EmitPiece(b) != [] && EmitPiece(b)[0] != QUOTE
    ensures ParsePiece(EmitPiece(b) + k) == if b[0] == 0x1F then BadPiece else Piece(b[..ValidateChar(b)], k)
  {
    var n, c := ValidateChar(b), b[0];
    var e := EmitPiece(b);
    var t := e + k;
    if c < 0x1F || c == QUOTE || c == BACKSLASH {
      EscapeRoundTrip(b, k);
    } else {
      SamePrefixSameChar(b, k);
      hide ValidateChar;
      assert t[..n] == e && t[n..] == k;
    }
  }

  lemma EscapeRoundTrip(b: Bytes, k: Bytes)
    requires b != [] && ValidateChar(b) != 0 && 0 < b[0] && (b[0] < 0x1F || b[0] == QUOTE || b[0] == BACKSLASH)
    ensures EmitPiece(b) != [] && EmitPiece(b)[0] != QUOTE
    ensures ParsePiece(EmitPiece(b) + k) == Piece(b[..ValidateChar(b)], k)
  {
    var c, e := b[0], EmitPiece(b);
    var t := e + k;
    assert ValidateChar(b) == 1 && b[..1] == [c];
    hide ValidateChar, ParseHex, WriteHex16, WriteChar, FromPair;
    assert t[1..] == e[1..] + k;
    assert t[1..][1..] == e[2..] + k;
    assert e[2..] == [] || e[2..] == WriteHex16(c);
    if e[2..] != [] {
      HexRoundTrip(c, k);
      CodeRoundTrip(c, t[2..], k);
    } else {
      assert e[2..] + k == k;
    }
  }

  lemma CodeRoundTrip(c: byte, t: Bytes, k: Bytes)
    requires 0 < c <= 0x1F && ParseHex(t, 4, 0) == Hex(c, k)
    ensures ParseUnicode(t) == Piece([c], k)
  {
    hide ParseHex, FromPair;
  }

  /** Validation of a character looks at the character only. */
  lemma SamePrefixSameChar(b: Bytes, k: Bytes)
    requires b != [] && ValidateChar(b) != 0
    ensures ValidateChar(b[..ValidateChar(b)] + k) == ValidateChar(b)
  {
    var n := ValidateChar(b);
    assert forall i :: 0 <= i < n ==> (b[..n] + k)[i] == b[i];
  }

  /** A character contains 0x1F, or a NUL, only as its first byte. */
  lemma ControlIsFirst(b: Bytes)
    requires b != [] && ValidateChar(b) != 0
    ensures 0x1F in b[..ValidateChar(b)] <==> b[0] == 0x1F
    ensures 0 in b[..ValidateChar(b)] <==> b[0] == 0
  {
    assert b[..ValidateChar(b)][0] == b[0];
  }

  lemma {:induction false} CharsRoundTrip(b: Bytes, k: Bytes)
    requires Validate(b) && 0 !in b
    ensures ParseChars(EmitChars(b) + [QUOTE] + k) == if 0x1F in b then BadChars else Chars(b, k)
  {
    var t := EmitChars(b) + [QUOTE] + k;
    if b == [] {
      assert t == [QUOTE] + k;
    } else {
      hide ParsePiece, EmitPiece, ValidateChar;
      var n := ValidateChar(b);
      var e, more := EmitPiece(b), EmitChars(b[n..]) + [QUOTE] + k;
      assert t == e + more;
      PieceRoundTrip(b, more);
      assert b == b[..n] + b[n..];
      ControlIsFirst(b);
      CharsRoundTrip(b[n..], k);
    }
  }

  /** Theorem: parsing inverts printing exactly for the strings without 0x1F; the printed form of
      any other string is rejected. */
  lemma StringRoundTrip(b: Bytes, k: Bytes)
    requires Validate(b) && 0 !in b
    ensures ParseString(EmitString(b) + k) == if 0x1F in b then BadChars else Chars(b, k)
  {
    hide ParseChars, EmitChars;
    CharsRoundTrip(b, k);
    assert (EmitString(b) + k)[1..] == EmitChars(b) + [QUOTE] + k;
  }

  // ----- Parsed strings -----

  /** One valid character that is not NUL. */
  predicate OneChar(out: Bytes) { out != [] && ValidateChar(out) == |out| && 0 !in out }

  lemma WrittenIsOneChar(u: nat)
    requires IsScalar(u) && u != 0
    ensures OneChar(WriteChar(u))
  {
    WriteThenRead(u, []);
    assert WriteChar(u) + [] == WriteChar(u);
  }

  lemma PieceIsOneChar(t: Bytes)
    requires ParsePiece(t).Piece? && 0 !in t
    ensures OneChar(ParsePiece(t).out) && 0 !in ParsePiece(t).rest
  {
    PieceIsSuffix(t);
    if At(t, 0) == BACKSLASH {
      if At(t[1..], 0) == LETTER_U {
        UnicodeIsOneChar(t[2..]);
        assert t[1..][1..] == t[2..];
      }
    } else {
      var n := ValidateChar(t);
      SamePrefixSameChar(t, []);
      assert t[..n] + [] == t[..n];
    }
  }

  lemma UnicodeIsOneChar(t: Bytes)
    requires ParseUnicode(t).Piece?
    ensures OneChar(ParseUnicode(t).out)
  {
    hide WriteChar, OneChar;
    var h := ParseHex(t, 4, 0);
    if 0xD800 <= h.val <= 0xDFFF {
      var lc := ParseHex(h.rest[2..], 4, 0).val;
      SplitInvertsJoin(h.val, lc);
      WrittenIsOneChar(FromPair(h.val, lc).u);
    } else {
      HexFits(t, 4, 0);
      WrittenIsOneChar(h.val);
    }
  }

  lemma OneCharThen(out: Bytes, more: Bytes)
    requires OneChar(out) && Validate(more)
    ensures Validate(out + more)
  {
    SamePrefixSameChar(out, more);
    assert out[..|out|] == out;
    assert (out + more)[|out|..] == more;
  }

  /** Every parsed string is valid UTF-8 and free of NUL. */
  lemma {:induction false} ParsedIsValid(t: Bytes)
    requires ParseChars(t).Chars? && 0 !in t
    ensures Validate(ParseChars(t).out) && 0 !in ParseChars(t).out
    decreases |t|
  {
    hide ParsePiece, Validate;
    if At(t, 0) == QUOTE {
      EmptyIsValid();
    } else {
      PieceIsSuffix(t);
      PieceIsOneChar(t);
      ParsedIsValid(ParsePiece(t).rest);
      OneCharThen(ParsePiece(t).out, ParseChars(ParsePiece(t).rest).out);
    }
  }

  lemma EmptyIsValid()
    ensures Validate([])
  {
  }
}
