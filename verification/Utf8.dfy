/**
 UTF-8 (section 4 of RFC 3629) and UTF-16 surrogate pairs (sections 2.1 and 2.2 of RFC 2781),
 over C strings: a sequence of bytes stands for the characters before the terminating NUL.
 */
module Utf8 {
  type byte = x: int | 0 <= x < 256

  type Bytes = seq<byte>

  /** The byte at `i`; the terminator may be read, nothing behind it. */
  function At(s: Bytes, i: nat): byte
    requires i <= |s|
  {
    if i < |s| then s[i] else 0
  }

  /** The code of an ASCII character. */
  function Ascii(ch: char): byte
    requires ch < '\U{80}'
  {
    ch as int
  }

  predicate IsCont(c: byte) { 0x80 <= c <= 0xBF }

  /** Length of the character at the start of `s`, or 0 when it is invalid or clipped. */
  function ValidateChar(s: Bytes): (n: nat)
    ensures s != [] ==> n <= |s|
    ensures n <= 4
  {
    var c := At(s, 0);
    if c <= 0x7F then 1
    else if c <= 0xC1 then 0
    else if c <= 0xDF then
      if !IsCont(At(s, 1)) then 0 else 2
    else if c <= 0xEF then
      if c == 0xE0 && At(s, 1) < 0xA0 then 0
      else if c == 0xED && At(s, 1) > 0x9F then 0
      else if !IsCont(At(s, 1)) then 0
      else if !IsCont(At(s, 2)) then 0
      else 3
    else if c <= 0xF4 then
      if c == 0xF0 && At(s, 1) < 0x90 then 0
      else if c == 0xF4 && At(s, 1) > 0x8F then 0
      else if !IsCont(At(s, 1)) then 0
      else if !IsCont(At(s, 2)) then 0
      else if !IsCont(At(s, 3)) then 0
      else 4
    else 0
  }

  predicate Validate(s: Bytes) {
    s == [] || (ValidateChar(s) != 0 && Validate(s[ValidateChar(s)..]))
  }

  /** The loop over a NUL-terminated string. */
  method ValidateString(s: Bytes) returns (ok: bool)
    ensures ok == Validate(s)
  {
    var p := 0;
    while p < |s|
      invariant p <= |s| && Validate(s) == Validate(s[p..])
    {
      var len := ValidateChar(s[p..]);
      if len == 0 { return false; }
      assert s[p..][len..] == s[p + len..];
      p := p + len;
    }
    ok := true;
  }

  // ----- Scalar values -----

  predicate IsScalar(u: int) { 0 <= u <= 0x10FFFF && !(0xD800 <= u <= 0xDFFF) }

  /** The scalar value of the valid character at the start of `s`. */
  function ReadChar(s: Bytes): (u: nat)
    requires s != [] && ValidateChar(s) != 0
  {
    if s[0] <= 0x7F then s[0]
    else if s[0] <= 0xDF then Read2(s[0], s[1])
    else if s[0] <= 0xEF then Read3(s[0], s[1], s[2])
    else Read4(s[0], s[1], s[2], s[3])
  }

  function Read2(a: nat, b: nat): nat { a % 0x20 * 0x40 + b % 0x40 }

  function Read3(a: nat, b: nat, c: nat): nat { a % 0x10 * 0x1000 + b % 0x40 * 0x40 + c % 0x40 }

  function Read4(a: nat, b: nat, c: nat, d: nat): nat {
    a % 8 * 0x40000 + b % 0x40 * 0x1000 + c % 0x40 * 0x40 + d % 0x40
  }

  /** A continuation byte carrying the low six bits of `x`. */
  function Cont(x: nat): (c: byte)
    ensures IsCont(c) && c % 0x40 == x % 0x40
  {
    0x80 + x % 0x40
  }

  function WriteChar(u: nat): (s: Bytes)
    requires IsScalar(u)
    ensures 1 <= |s| <= 4
  {
    if u <= 0x7F then [u]
    else if u <= 0x7FF then [0xC0 + u / 0x40, Cont(u)]
    else if u <= 0xFFFF then [0xE0 + u / 0x1000, Cont(u / 0x40), Cont(u)]
    else [0xF0 + u / 0x40000, Cont(u / 0x1000), Cont(u / 0x40), Cont(u)]
  }

  lemma WriteThenRead3(u: nat)
    requires 0x800 <= u <= 0xFFFF && IsScalar(u)
    ensures var w := WriteChar(u);
            && |w| == 3 && ValidateChar(w) == 3 && Read3(w[0], w[1], w[2]) == u
            && 0xE0 <= w[0] <= 0xEF && (w[0] == 0xE0 ==> w[1] >= 0xA0) && (w[0] == 0xED ==> w[1] <= 0x9F)
  {
    assert u / 0x1000 == u / 0x40 / 0x40;
  }

  lemma WriteThenRead4(u: nat)
    requires 0x10000 <= u <= 0x10FFFF
    ensures var w := WriteChar(u);
            && |w| == 4 && ValidateChar(w) == 4 && Read4(w[0], w[1], w[2], w[3]) == u
            && 0xF0 <= w[0] <= 0xF4 && (w[0] == 0xF0 ==> w[1] >= 0x90) && (w[0] == 0xF4 ==> w[1] <= 0x8F)
  {
    assert u / 0x1000 == u / 0x40 / 0x40;
    assert u / 0x40000 == u / 0x1000 / 0x40;
  }

  /** A written character is valid in front of anything, and reads back. */
  lemma WriteThenRead(u: nat, k: Bytes)
    requires IsScalar(u)
    ensures ValidateChar(WriteChar(u) + k) == |WriteChar(u)|
    ensures ReadChar(WriteChar(u) + k) == u
    ensures u != 0 ==> 0 !in WriteChar(u)
  {
    hide Read3, Read4;
    if 0x7FF < u <= 0xFFFF {
      WriteThenRead3(u);
    } else if 0xFFFF < u {
      WriteThenRead4(u);
    }
  }

  /** The six-bit digits of a number put together from them. */
  lemma Digits(a: nat, b: nat, c: nat, d: nat)
    requires b < 0x40 && c < 0x40 && d < 0x40
    ensures var u := a * 0x40000 + b * 0x1000 + c * 0x40 + d;
            && u % 0x40 == d && u / 0x40 % 0x40 == c && u / 0x1000 % 0x40 == b && u / 0x40000 == a
            && u / 0x1000 == a * 0x40 + b
  {
    var u := a * 0x40000 + b * 0x1000 + c * 0x40 + d;
    assert u / 0x40 == a * 0x1000 + b * 0x40 + c;
    assert u / 0x1000 == u / 0x40 / 0x40 == a * 0x40 + b;
    assert u / 0x40000 == u / 0x1000 / 0x40;
  }

  /** Reading valid bytes is putting their payloads together. */
  lemma Payloads(a: byte, b: byte, c: byte, d: byte)
    requires IsCont(b) && IsCont(c)
    ensures 0xE0 <= a <= 0xEF
            ==> Read3(a, b, c) == (a - 0xE0) as int * 0x1000 + (b - 0x80) as int * 0x40 + (c - 0x80) as int
    ensures 0xF0 <= a <= 0xF4 && IsCont(d) ==>
              Read4(a, b, c, d) == (a - 0xF0) as int * 0x40000 + (b - 0x80) as int * 0x1000 + (c - 0x80) as int * 0x40
                               + (d - 0x80) as int
  {
  }

  lemma ReadThenWrite3(s: Bytes)
    requires s != [] && ValidateChar(s) == 3
    ensures 0x800 <= ReadChar(s) && IsScalar(ReadChar(s)) && WriteChar(ReadChar(s)) == s[..3]
  {
    hide Read3;
    Payloads(s[0], s[1], s[2], 0);
    Digits(0, s[0] - 0xE0, s[1] - 0x80, s[2] - 0x80);
  }

  lemma ReadThenWrite4(s: Bytes)
    requires s != [] && ValidateChar(s) == 4
    ensures 0x10000 <= ReadChar(s) && IsScalar(ReadChar(s)) && WriteChar(ReadChar(s)) == s[..4]
  {
    hide Read4;
    Payloads(s[0], s[1], s[2], s[3]);
    Digits(s[0] - 0xF0, s[1] - 0x80, s[2] - 0x80, s[3] - 0x80);
  }

  /** A valid character is the one encoding of a scalar value. */
  lemma ReadThenWrite(s: Bytes)
    requires s != [] && ValidateChar(s) != 0
    ensures IsScalar(ReadChar(s)) && WriteChar(ReadChar(s)) == s[..ValidateChar(s)]
    ensures ReadChar(s) == 0 <==> s[0] == 0
  {
    hide Read3, Read4;
    if 0xDF < s[0] <= 0xEF {
      ReadThenWrite3(s);
      hide WriteChar;
    } else if 0xEF < s[0] {
      ReadThenWrite4(s);
      hide WriteChar;
    }
  }

  predicate Scalars(us: seq<nat>) {
    forall i :: 0 <= i < |us| ==> us[i] != 0 && IsScalar(us[i])
  }

  function WriteAll(us: seq<nat>): Bytes
    requires Scalars(us)
  {
    if us == [] then [] else WriteChar(us[0]) + WriteAll(us[1..])
  }

  function ReadAll(s: Bytes): seq<nat>
    requires Validate(s)
  {
    if s == [] then [] else [ReadChar(s)] + ReadAll(s[ValidateChar(s)..])
  }

  lemma {:induction false} ReadInvertsWrite(us: seq<nat>)
    requires Scalars(us)
    ensures Validate(WriteAll(us)) && 0 !in WriteAll(us) && ReadAll(WriteAll(us)) == us
  {
    hide ValidateChar, ReadChar, WriteChar;
    if us != [] {
      var w, rest := WriteChar(us[0]), WriteAll(us[1..]);
      WriteThenRead(us[0], rest);
      assert (w + rest)[|w|..] == rest;
      ReadInvertsWrite(us[1..]);
    }
  }

  lemma {:induction false} WriteInvertsRead(s: Bytes)
    requires Validate(s) && 0 !in s
    ensures Scalars(ReadAll(s)) && WriteAll(ReadAll(s)) == s
  {
    hide ValidateChar, ReadChar, WriteChar, IsScalar;
    if s != [] {
      var n := ValidateChar(s);
      ReadThenWrite(s);
      WriteInvertsRead(s[n..]);
      assert ReadAll(s)[1..] == ReadAll(s[n..]);
      assert s == s[..n] + s[n..];
    }
  }

  /** A NUL-free string is valid exactly when it encodes some sequence of scalar values, and then
      that sequence is the one that reading the characters one by one gives. */
  lemma ValidIffEncoding(s: Bytes)
    requires 0 !in s
    ensures Validate(s) <==> exists us: seq<nat> :: Scalars(us) && WriteAll(us) == s
    ensures forall us: seq<nat> :: Scalars(us) && WriteAll(us) == s ==> Validate(s) && us == ReadAll(s)
  {
    if Validate(s) { WriteInvertsRead(s); }
    forall us: seq<nat> | Scalars(us) && WriteAll(us) == s ensures Validate(s) && us == ReadAll(s) {
      ReadInvertsWrite(us);
    }
  }

  // ----- Surrogate pairs -----

  datatype Scalar = NotAPair | Scalar(u: nat)

  function FromPair(uc: nat, lc: nat): Scalar {
    if 0xD800 <= uc <= 0xDBFF && 0xDC00 <= lc <= 0xDFFF
    then Scalar(0x10000 + uc % 0x400 * 0x400 + lc % 0x400)
    else NotAPair
  }

  function ToPair(u: nat): (nat, nat)
    requires 0x10000 <= u <= 0x10FFFF
  {
    var n := u - 0x10000;
    (n / 0x400 % 0x400 + 0xD800, n % 0x400 + 0xDC00)
  }

  lemma JoinInvertsSplit(u: nat)
    requires 0x10000 <= u <= 0x10FFFF
    ensures FromPair(ToPair(u).0, ToPair(u).1) == Scalar(u)
  {
  }

  lemma SplitInvertsJoin(uc: nat, lc: nat)
    requires FromPair(uc, lc).Scalar?
    ensures 0x10000 <= FromPair(uc, lc).u <= 0x10FFFF && ToPair(FromPair(uc, lc).u) == (uc, lc)
  {
  }
}
