/**
 Base58 text for keys and addresses. Big numbers are natural numbers; the checksum is an arbitrary
 function to four bytes.
 */
module Base58 {
  import opened Utf8
  import opened Radix

  // ----- Digits -----

  /** The digits and letters without 0, I, O and l. */
  function Char(digit: nat): (c: byte)
    requires digit < 58
    ensures c > 0
  {
    if digit < 9 then 0x31 + digit
    else if digit < 17 then 0x41 + (digit - 9)
    else if digit < 22 then 0x4A + (digit - 17)
    else if digit < 33 then 0x50 + (digit - 22)
    else if digit < 44 then 0x61 + (digit - 33)
    else 0x6D + (digit - 44)
  }

  /** '1' stands for zero. */
  const ONE: byte := 0x31

  function ALPHABET(): Bytes { seq(58, i requires 0 <= i < 58 => Char(i)) }

  function Find(s: Bytes, c: byte): (i: nat)
    ensures i <= |s| && (i < |s| ==> s[i] == c) && forall k :: 0 <= k < i ==> s[k] != c
  {
    if s == [] || s[0] == c then 0 else 1 + Find(s[1..], c)
  }

  /** `decode_char`: the search includes the terminator of the alphabet, so NUL counts 58. */
  function Digit(c: byte): (d: int)
    ensures d == -1 || 0 <= d <= 58
    ensures d == 58 <==> c == 0
    ensures 0 <= d < 58 ==> Char(d) == c
  {
    var i := Find(ALPHABET(), c);
    if i < 58 then i else if c == 0 then 58 else -1
  }

  /** The characters are in ascending order, */
  lemma AlphabetAscends(i: nat, j: nat)
    requires i < j < 58
    ensures Char(i) < Char(j)
  {
  }

  /** and they are all the digits and letters but four: no other alphabet is like that. */
  lemma AlphabetIs(c: byte)
    ensures (exists d: nat :: d < 58 && Char(d) == c) <==>
            || (Ascii('0') <= c <= Ascii('9') && c != Ascii('0'))
            || (Ascii('A') <= c <= Ascii('Z') && c != Ascii('I') && c != Ascii('O'))
            || (Ascii('a') <= c <= Ascii('z') && c != Ascii('l'))
  {
    var d := if c < 0x41 then c as int - 0x31
             else if c < 0x49 then c as int - 0x41 + 9
             else if c < 0x4F then c as int - 0x4A + 17
             else if c < 0x61 then c as int - 0x50 + 22
             else if c < 0x6C then c as int - 0x61 + 33
             else c as int - 0x6D + 44;
    if 0 <= d < 58 && Char(d) == c { assert exists e: nat :: e < 58 && Char(e) == c; }
  }

  lemma DigitOfChar(d: nat)
    requires d < 58
    ensures Digit(Char(d)) == d
  {
    assert ALPHABET()[d] == Char(d);
  }

  // ----- Text -----

  function Chars(ds: seq<nat>): (t: Bytes)
    requires forall i :: 0 <= i < |ds| ==> ds[i] < 58
    ensures |t| == |ds| && forall i :: 0 <= i < |t| ==> t[i] == Char(ds[i])
  {
    seq(|ds|, i requires 0 <= i < |ds| => Char(ds[i]))
  }

  function Ones(k: nat): (t: Bytes)
    ensures |t| == k && forall i :: 0 <= i < k ==> t[i] == ONE
  {
    seq(k, _ => ONE)
  }

  /** The text of a byte string: a '1' for each leading zero byte, then the number in radix 58. */
  function Text(data: Bytes): Bytes {
    Ones(LeadingZeros(data)) + Chars(Rep(58, Num(256, data)))
  }

  predicate Readable(t: Bytes) { forall i :: 0 <= i < |t| ==> Digit(t[i]) >= 0 }

  function Digits(t: Bytes): (ds: seq<nat>)
    requires Readable(t)
    ensures |ds| == |t| && forall i :: 0 <= i < |t| ==> ds[i] == Digit(t[i])
  {
    seq(|t|, i requires 0 <= i < |t| => Digit(t[i]))
  }

  /** The number a readable text stands for. */
  function ValueOf(t: Bytes): nat
    requires Readable(t)
  {
    Num(58, Digits(t))
  }

  lemma DigitsOfText(data: Bytes)
    ensures Readable(Text(data))
    ensures Digits(Text(data)) == Zeros(LeadingZeros(data)) + Rep(58, Num(256, data))
  {
    TextDigits(LeadingZeros(data), Rep(58, Num(256, data)));
  }

  lemma TextDigits(k: nat, ds: seq<nat>)
    requires forall i :: 0 <= i < |ds| ==> ds[i] < 58
    ensures var t := Ones(k) + Chars(ds); Readable(t) && Digits(t) == Zeros(k) + ds
  {
    var t := Ones(k) + Chars(ds);
    forall i | 0 <= i < |t| ensures Digit(t[i]) == (Zeros(k) + ds)[i] {
      if i < k { DigitOfChar(0); } else { DigitOfChar(ds[i - k]); }
    }
  }

  /** The text has the value of the bytes, and a '1' in front for each leading zero byte, no more. */
  lemma TextKeepsValue(data: Bytes)
    ensures Readable(Text(data)) && ValueOf(Text(data)) == Num(256, data)
    ensures LeadingZeros(Digits(Text(data))) == LeadingZeros(data)
  {
    DigitsOfText(data);
    var k, ds := LeadingZeros(data), Rep(58, Num(256, data));
    NumZeros(58, k, ds);
    NumOfRep(58, Num(256, data));
    LeadingZerosOf(k, ds);
  }

  lemma {:induction false} LeadingZerosOf(k: nat, ds: seq<nat>)
    requires ds != [] ==> ds[0] != 0
    ensures LeadingZeros(Zeros(k) + ds) == k
  {
    if k > 0 {
      assert (Zeros(k) + ds)[1..] == Zeros(k - 1) + ds;
      LeadingZerosOf(k - 1, ds);
    } else {
      assert Zeros(k) + ds == ds;
    }
  }

  /** Read back with its leading zeros, the text gives the bytes it was made from. */
  function Bytes256(t: Bytes): seq<nat>
    requires Readable(t)
  {
    Zeros(LeadingZeros(Digits(t))) + Rep(256, ValueOf(t))
  }

  lemma TextReadsBack(data: Bytes)
    ensures Readable(Text(data)) && Bytes256(Text(data)) == data
  {
    TextKeepsValue(data);
    DigitsKnown(256, data);
  }

  /** Different byte strings have different texts. */
  lemma TextInjective(a: Bytes, b: Bytes)
    requires Text(a) == Text(b)
    ensures a == b
  {
    TextReadsBack(a);
    TextReadsBack(b);
  }

  lemma BytesOfText(t: Bytes)
    requires Readable(t)
    ensures var data := Bytes256(t); Num(256, data) == ValueOf(t) && LeadingZeros(data) == LeadingZeros(Digits(t))
  {
    var k, n := LeadingZeros(Digits(t)), ValueOf(t);
    LeadingZerosOf(k, Rep(256, n));
    NumZeros(256, k, Rep(256, n));
    NumOfRep(256, n);
  }

  lemma DigitsGiveText(t: Bytes, k: nat, ds: seq<nat>)
    requires Readable(t) && 0 !in t && Digits(t) == Zeros(k) + ds && forall i :: 0 <= i < |ds| ==> ds[i] < 58
    ensures t == Ones(k) + Chars(ds)
  {
    assert |t| == k + |ds|;
    var u := Ones(k) + Chars(ds);
    forall i | 0 <= i < |t| ensures t[i] == u[i] {
      assert t[i] != 0;
      assert Digits(t)[i] == (Zeros(k) + ds)[i];
    }
  }

  /** A text without NUL is the text of what it reads as. */
  lemma TextOfValue(t: Bytes, data: Bytes)
    requires Readable(t) && 0 !in t && data == Bytes256(t)
    ensures Text(data) == t
  {
    var ds := Digits(t);
    forall i | 0 <= i < |t| ensures ds[i] < 58 { assert t[i] != 0; }
    DigitsKnown(58, ds);
    BytesOfText(t);
    DigitsGiveText(t, LeadingZeros(ds), Rep(58, ValueOf(t)));
  }

  // ----- Lengths -----

  /** 38 bytes are less than 52 digits in radix 58. */
  lemma KeyFits()
    ensures Pow(256, 38) <= Pow(58, 52)
  {
    assert Pow(58, 6) == 38068692544;
    assert Pow(58, 13) == 84055070416556869132288;
    assert Pow(16, 7) == 268435456;
    assert Pow(16, 13) == 4503599627370496;
    assert Pow(16, 19) == 75557863725914323419136;
    PowMono(Pow(16, 19), Pow(58, 13), 4);
    PowPow(16, 19, 4);
    PowPow(58, 13, 4);
    assert Pow(16, 2) == 256;
    PowPow(16, 2, 38);
  }

  /** Up to 25 bytes need at most ten digits more than bytes. */
  lemma {:induction false} AddressFits(m: nat)
    requires m <= 25
    ensures Pow(256, m) <= Pow(58, m + 10)
    decreases 25 - m
  {
    if m == 25 {
      assert Pow(58, 7) >= Pow(256, 5);
      PowMono(Pow(256, 5), Pow(58, 7), 5);
      PowPow(256, 5, 5);
      PowPow(58, 7, 5);
    } else {
      AddressFits(m + 1);
      assert Pow(256, m + 1) == Pow(256, m) * 256;
      assert Pow(58, m + 11) == Pow(58, m + 10) * 58;
    }
  }

  lemma TextLength(data: Bytes)
    ensures |data| <= 25 ==> |Text(data)| <= 35
    ensures |data| == 38 && data[0] != 0 ==> |Text(data)| <= 52
  {
    hide Pow;
    var k := LeadingZeros(data);
    var m := |data| - k;
    DigitsKnown(256, data);
    RepLength(256, Num(256, data), m);
    if |data| <= 25 {
      AddressFits(m);
      RepLength(58, Num(256, data), m + 10);
    } else if |data| == 38 && data[0] != 0 {
      KeyFits();
      RepLength(58, Num(256, data), 52);
    }
  }

  // ----- The conversions -----

  /** One digit more at the front of what has been written, one digit less to write. */
  lemma NextDigit(bn: nat)
    requires bn != 0
    ensures Chars(Rep(58, bn)) == Chars(Rep(58, Quot(bn, 58))) + [Char(bn % 58)]
  {
    hide Quot, Char;
  }

  lemma NoDigits()
    ensures Chars(Rep(58, 0)) == []
  {
  }

  lemma Written(s: Bytes, p: nat, q: nat)
    requires p < q <= |s|
    ensures s[p..q] == [s[p]] + s[p + 1..q]
  {
  }

  lemma OnesMore(i: nat)
    ensures Ones(i + 1) == [ONE] + Ones(i) && Ones(0) == []
  {
  }

  /** The series of divides: digits go in front of what is at `p`, until there is no room. */
  method FillDigits(buf: array<byte>, p0: nat, n: nat) returns (fits: bool, p: nat)
    requires p0 <= buf.Length
    modifies buf
    ensures fits <==> |Chars(Rep(58, n))| <= p0
    ensures fits ==> p <= p0 && buf[p..] == Chars(Rep(58, n)) + old(buf[p0..])
    ensures buf[p0..] == old(buf[p0..])
  {
    hide Num, Rep, Quot, Char, Chars;
    var bn := n;
    p := p0;
    ghost var text := Chars(Rep(58, bn));
    while bn != 0
      invariant p <= p0 && buf[p0..] == old(buf[p0..])
      invariant text == Chars(Rep(58, bn)) + buf[p..p0]
      decreases bn
    {
      NextDigit(bn);
      var rem := bn % 58;
      bn := Quot(bn, 58);
      if p == 0 { return false, 0; }
      p := p - 1;
      buf[p] := Char(rem);
      Written(buf[..], p, p0);
    }
    NoDigits();
    assert buf[p..] == buf[p..p0] + buf[p0..];
    fits := true;
  }

  /** The padding: a '1' in front for each leading zero byte, until there is no room. */
  method PadOnes(buf: array<byte>, p0: nat, data: Bytes) returns (fits: bool, p: nat)
    requires p0 <= buf.Length
    modifies buf
    ensures fits <==> LeadingZeros(data) <= p0
    ensures fits ==> p <= p0 && buf[p..] == Ones(LeadingZeros(data)) + old(buf[p0..])
    ensures buf[p0..] == old(buf[p0..])
  {
    hide Ones, LeadingZeros;
    var i := 0;
    p := p0;
    OnesMore(0);
    while i < |data| && data[i] == 0
      invariant p + i == p0 && buf[p0..] == old(buf[p0..])
      invariant i <= LeadingZeros(data) && buf[p..p0] == Ones(i)
    {
      ZeroAt(data, i);
      OnesMore(i);
      if p == 0 { return false, 0; }
      p := p - 1;
      buf[p] := ONE;
      Written(buf[..], p, p0);
      i := i + 1;
    }
    ZeroAt(data, i);
    assert buf[p..] == buf[p..p0] + buf[p0..];
    fits := true;
  }

  /**
   `encode_base58`: the buffer is filled from the back, digits first, then a '1' for each leading
   zero byte. The text and its terminator end at `buflen`; nothing behind that is written.
   */
  method EncodeBase58(buf: array<byte>, buflen: nat, data: Bytes) returns (fits: bool, p: nat)
    requires buflen <= buf.Length
    modifies buf
    ensures fits <==> |Text(data)| < buflen
    ensures fits ==> p + |Text(data)| + 1 == buflen && buf[p..] == Text(data) + [0] + old(buf[buflen..])
    ensures buf[buflen..] == old(buf[buflen..])
  {
    hide Num, Rep, Chars, Ones, LeadingZeros;
    var bn := Num(256, data);
    if buflen == 0 { return false, 0; }
    ghost var behind := buf[buflen..];
    var q := buflen - 1;
    buf[q] := 0;
    assert buf[buflen - 1..] == [0] + behind;
    fits, q := FillDigits(buf, buflen - 1, bn);
    assert buf[buflen..] == buf[buflen - 1..][1..];
    if !fits { return false, 0; }
    fits, p := PadOnes(buf, q, data);
    Behind(buf[..], q, buflen);
    if !fits { return false, 0; }
    assert buf[p..] == Text(data) + [0] + behind;
  }

  lemma Behind(s: Bytes, q: nat, n: nat)
    requires q <= n <= |s|
    ensures s[n..] == s[q..][n - q..]
  {
  }

  lemma ZeroAt(ds: seq<nat>, i: nat)
    requires i <= LeadingZeros(ds)
    ensures i < LeadingZeros(ds) <==> i < |ds| && ds[i] == 0
  {
    if i < LeadingZeros(ds) { assert ds[..LeadingZeros(ds)][i] == 0; }
  }

  lemma DigitsSnoc(t: Bytes, i: nat)
    requires i < |t| && Readable(t[..i + 1])
    ensures Readable(t[..i]) && ValueOf(t[..i + 1]) == ValueOf(t[..i]) * 58 + Digit(t[i])
  {
    var s := t[..i + 1];
    assert forall j :: 0 <= j < i ==> s[j] == t[..i][j];
    assert Digits(s)[..i] == Digits(t[..i]);
  }

  /** `rawDecodeBase58`: multiply and add, until a character that is not in the alphabet. */
  method RawDecode(src: Bytes) returns (ok: bool, bn: nat)
    ensures ok == Readable(src) && (ok ==> bn == ValueOf(src))
  {
    bn := 0;
    var i := 0;
    while i < |src|
      invariant i <= |src| && Readable(src[..i]) && bn == ValueOf(src[..i])
    {
      hide Digit, Num;
      var val := Digit(src[i]);
      if val < 0 { return false, 0; }
      assert src[..i + 1] == src[..i] + [src[i]];
      DigitsSnoc(src, i);
      bn := bn * 58;
      bn := bn + val;
      i := i + 1;
    }
    assert src[..i] == src;
    ok := true;
  }

  // ----- Keys and addresses -----

  type Checksum = s: Bytes | |s| == 4 witness [0, 0, 0, 0]

  function Sealed(payload: Bytes, sum: Bytes -> Checksum): Bytes { payload + sum(payload) }

  /** The string at a C pointer. */
  function CString(s: Bytes): Bytes { if s == [] || s[0] == 0 then [] else [s[0]] + CString(s[1..]) }

  lemma {:induction false} CStringOf(t: Bytes)
    requires 0 !in t
    ensures CString(t + [0]) == t
  {
    if t != [] {
      assert (t + [0])[1..] == t[1..] + [0];
      CStringOf(t[1..]);
    }
  }

  lemma TextHasNoNul(data: Bytes)
    ensures 0 !in Text(data)
  {
    hide Rep, Num;
  }

  /** `encode` of a key of 32 or 33 bytes; a private key is marked as compressed behind its bytes. */
  method EncodeKey(key: Bytes, private_: bool, sum: Bytes -> Checksum) returns (t: Bytes)
    requires |key| == if private_ then 32 else 33
    ensures t == Text(Sealed(KeyPayload(key), sum))
  {
    hide Text, CString;
    var frame := new byte[38](_ => 0);
    if private_ { frame[33] := 1; }
    frame[0] := 0x03;
    forall i | 0 <= i < |key| { frame[1 + i] := key[i]; }
    assert frame[..34] == KeyPayload(key);
    var csum := sum(frame[..34]);
    forall i | 0 <= i < 4 { frame[34 + i] := csum[i]; }
    assert frame[..34] == KeyPayload(key);
    assert frame[..] == Sealed(KeyPayload(key), sum);
    var out := new byte[53];
    TextLength(frame[..]);
    var fits, p := EncodeBase58(out, 53, frame[..]);
    assert out[p..] == Text(frame[..]) + [0];
    TextHasNoNul(frame[..]);
    CStringOf(Text(frame[..]));
    t := CString(out[p..]);
  }

  function KeyPayload(key: Bytes): (f: Bytes)
    requires |key| == 32 || |key| == 33
    ensures |f| == 34
  {
    [0x03] + key + if |key| == 32 then [1] else []
  }

  /** The bytes of the number a text stands for. */
  function Frame(t: Bytes): Bytes
    requires Readable(t)
  {
    Rep(256, ValueOf(t))
  }

  predicate Accepted(t: Bytes, sum: Bytes -> Checksum) {
    && Readable(t) && |Frame(t)| == 38
    && Frame(t)[34..] == sum(Frame(t)[..34]) && Frame(t)[0] == 0x03
  }

  /** `decode` of a key: the target is written only on success. */
  method DecodeKey(b58: Bytes, key: array<byte>, sum: Bytes -> Checksum) returns (ok: bool)
    requires key.Length == 32 || key.Length == 33
    modifies key
    ensures ok == Accepted(b58, sum)
    ensures key[..] == if ok then Frame(b58)[1..1 + key.Length] else old(key[..])
  {
    hide Rep, Readable;
    var readable, bn := RawDecode(b58);
    if !readable { return false; }
    var addr: Bytes := Rep(256, bn);
    if |addr| != 38 { return false; }
    var csum := sum(addr[..34]);
    if csum != addr[34..] { return false; }
    if addr[0] != 0x03 { return false; }
    forall i | 0 <= i < key.Length { key[i] := addr[1 + i]; }
    ok := true;
  }

  /** A key comes back from its text, whatever the checksum function is. */
  lemma KeyRoundTrip(key: Bytes, sum: Bytes -> Checksum)
    requires |key| == 32 || |key| == 33
    ensures var t := Text(Sealed(KeyPayload(key), sum));
            Accepted(t, sum) && Frame(t)[1..1 + |key|] == key
  {
    var data := Sealed(KeyPayload(key), sum);
    FrameOfText(data);
    hide Rep, Text, Readable, Frame, KeyPayload, Sealed;
    SealedParts(key, sum);
  }

  lemma SealedParts(key: Bytes, sum: Bytes -> Checksum)
    requires |key| == 32 || |key| == 33
    ensures var data := Sealed(KeyPayload(key), sum);
            && |data| == 38 && data[0] == 0x03 && data[1..1 + |key|] == key
            && data[..34] == KeyPayload(key) && data[34..] == sum(data[..34])
  {
    var data := Sealed(KeyPayload(key), sum);
    assert data[..34] == KeyPayload(key);
    assert data[34..] == sum(KeyPayload(key));
    assert KeyPayload(key)[1..1 + |key|] == key;
  }

  /** The bytes of the number in a text: the bytes it was made from, from the first that is not zero. */
  lemma FrameOfText(data: Bytes)
    ensures Readable(Text(data)) && data == Zeros(LeadingZeros(data)) + Frame(Text(data))
    ensures data != [] && data[0] != 0 ==> Frame(Text(data)) == data
  {
    TextKeepsValue(data);
    DigitsKnown(256, data);
    hide Text, Readable, Rep, Num;
    if data != [] && data[0] != 0 { LeadingZeroOf(data); }
  }

  /** A text without NUL and leading '1' is the text of its frame, and no other text is. */
  lemma FrameText(t: Bytes)
    requires Readable(t) && t != [] && Frame(t) != []
    ensures Text(Frame(t)) == t <==> 0 !in t && t[0] != ONE
  {
    hide Rep, Num, Digit;
    NoLeadingOne(t);
    TextHasNoNul(Frame(t));
    if 0 !in t && t[0] != ONE { TextOfValue(t, Frame(t)); }
    if Text(Frame(t)) == t {
      TextReadsBack(Frame(t));
      assert |Bytes256(t)| == LeadingZeros(Digits(t)) + |Frame(t)|;
    }
  }

  /**
   An accepted text is the text of the key it decodes to exactly when it has no NUL, does not begin
   with '1', and, for a private key, carries the mark for compressed keys.
   */
  lemma CanonicalText(t: Bytes, n: nat, sum: Bytes -> Checksum)
    requires Accepted(t, sum) && (n == 32 || n == 33)
    ensures Text(Sealed(KeyPayload(Frame(t)[1..1 + n]), sum)) == t <==>
              0 !in t && t[0] != ONE && (n == 32 ==> Frame(t)[33] == 1)
  {
    var f := Frame(t);
    var data := Sealed(KeyPayload(f[1..1 + n]), sum);
    NonEmpty(t);
    hide Rep, Text, Readable, Frame, KeyPayload, Sealed;
    FrameText(t);
    SealedFrame(f, n, sum);
    if Text(data) == t {
      SealedParts(f[1..1 + n], sum);
      FrameOfText(data);
    }
  }

  /** A frame is sealed again as it was, but for the byte behind a private key. */
  lemma SealedFrame(f: Bytes, n: nat, sum: Bytes -> Checksum)
    requires |f| == 38 && f[0] == 0x03 && f[34..] == sum(f[..34]) && (n == 32 || n == 33)
    ensures Sealed(KeyPayload(f[1..1 + n]), sum) == f <==> n == 32 ==> f[33] == 1
  {
    var payload := KeyPayload(f[1..1 + n]);
    assert payload[33] == if n == 32 then 1 else f[33];
    if n == 32 ==> f[33] == 1 {
      assert payload == f[..34];
    } else {
      assert (payload + sum(payload))[33] == 1;
    }
  }

  lemma LeadingZeroOf(data: Bytes)
    requires data != [] && data[0] != 0
    ensures LeadingZeros(data) == 0
  {
  }

  lemma NonEmpty(t: Bytes)
    requires Readable(t) && Frame(t) != []
    ensures t != []
  {
  }

  lemma NoLeadingOne(t: Bytes)
    requires Readable(t) && t != []
    ensures LeadingZeros(Digits(t)) == 0 <==> t[0] != ONE
    ensures t[0] != ONE ==> Bytes256(t) == Rep(256, ValueOf(t))
  {
    DigitOfChar(0);
  }

  // ----- Addresses -----

  method EncodeAddress(address: Bytes, sum: Bytes -> Checksum) returns (t: Bytes)
    requires |address| == 25
    ensures t == Text(Sealed(address[..21], sum)) && |t| <= 35
  {
    hide Text, CString;
    var tmp := new byte[25];
    forall i | 0 <= i < 25 { tmp[i] := address[i]; }
    assert tmp[..21] == address[..21];
    var csum := sum(tmp[..21]);
    forall i | 0 <= i < 4 { tmp[21 + i] := csum[i]; }
    assert tmp[..21] == address[..21];
    assert tmp[..] == Sealed(address[..21], sum);
    var out := new byte[36];
    TextLength(tmp[..]);
    var fits, p := EncodeBase58(out, 36, tmp[..]);
    assert out[p..] == Text(tmp[..]) + [0];
    TextHasNoNul(tmp[..]);
    CStringOf(Text(tmp[..]));
    t := CString(out[p..]);
  }

  /** The text is short enough, readable, and its number fits an address. */
  predicate Addresses(t: Bytes) {
    |t| <= 35 && Readable(t) && |Frame(t)| <= 25
  }

  /** `decode` of an address, padded with zero bytes in front. With `vcs` the checksum is compared with
      that of all 25 bytes. */
  method DecodeAddress(b58: Bytes, addr: array<byte>, vcs: bool, sum: Bytes -> Checksum) returns (ok: bool)
    requires addr.Length == 25
    modifies addr
    ensures addr[..] == if Addresses(b58) then Zeros(25 - |Frame(b58)|) + Frame(b58) else old(addr[..])
    ensures ok == (Addresses(b58) && (vcs ==> sum(addr[..]) == addr[21..]))
  {
    hide Rep, Readable;
    if |b58| > 35 { return false; }
    var readable, bn := RawDecode(b58);
    if !readable { return false; }
    var raw: Bytes := Rep(256, bn);
    var len := |raw|;
    if len > 25 { return false; }
    forall i | 0 <= i < 25 - len { addr[i] := 0; }
    forall i | 0 <= i < len { addr[25 - len + i] := raw[i]; }
    assert addr[..] == Zeros(25 - len) + raw;
    if vcs {
      var csum := sum(addr[..]);
      if csum != addr[21..] { return false; }
    }
    ok := true;
  }

  /** Version and hash of an address come back from its text, with the checksum in the last bytes. */
  lemma AddressRoundTrip(address: Bytes, sum: Bytes -> Checksum)
    requires |address| == 25
    ensures var data := Sealed(address[..21], sum); var t := Text(data);
            Addresses(t) && Zeros(25 - |Frame(t)|) + Frame(t) == data && data[..21] == address[..21]
  {
    hide Text, Readable, Frame, LeadingZeros, Sealed;
    var data := Sealed(address[..21], sum);
    FrameOfText(data);
    TextLength(data);
    SealedAddress(address, sum);
    assert |data| == LeadingZeros(data) + |Frame(Text(data))|;
  }

  lemma SealedAddress(address: Bytes, sum: Bytes -> Checksum)
    requires |address| == 25
    ensures var data := Sealed(address[..21], sum); |data| == 25 && data[..21] == address[..21]
  {
  }
}
