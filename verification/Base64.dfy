/**
 Base64 (section 4 of RFC 4648) over the output buffer. The codec loops write into the buffer's
 memory and leave it to a seek to account for what they wrote.
 */
module Base64 {
  import opened Utf8
  import opened OBuffer

  const PAD: byte := 0x3D

  function Char(v: nat): byte
    requires v < 64
  {
    if v < 26 then 0x41 + v
    else if v < 52 then 0x61 + (v - 26)
    else if v < 62 then 0x30 + (v - 52)
    else if v == 62 then 0x2B
    else 0x2F
  }

  /** `ASCII_LOOKUP`: 64 marks what is not in the alphabet. */
  function Lookup(c: byte): (v: nat)
    ensures v <= 64 && (v < 64 ==> Char(v) == c && c != PAD)
  {
    if 0x41 <= c <= 0x5A then c - 0x41
    else if 0x61 <= c <= 0x7A then c - 0x61 + 26
    else if 0x30 <= c <= 0x39 then c - 0x30 + 52
    else if c == 0x2B then 62
    else if c == 0x2F then 63
    else 64
  }

  lemma LookupOfChar(v: nat)
    requires v < 64
    ensures Lookup(Char(v)) == v && Char(v) != PAD && Char(v) != 0
  {
  }

  /** The characters of table 1 of RFC 4648, in order. */
  const UPPER: string := "ABCDEFGHIJKLMNOPQRSTUVWXYZ"
  const LOWER: string := "abcdefghijklmnopqrstuvwxyz"
  const REST: string := "0123456789+/"

  /** They are what is written and read; any other character is refused. */
  lemma Alphabet(v: nat, c: byte)
    requires v < 64
    ensures var ch := if v < 26 then UPPER[v] else if v < 52 then LOWER[v - 26] else REST[v - 52];
            Char(v) == ch as int && (Lookup(c) == v <==> c == ch as int)
  {
    LookupOfChar(v);
    if v < 26 {
      assert UPPER[v] as int == 0x41 + v;
    } else if v < 52 {
      assert LOWER[v - 26] as int == 0x61 + (v - 26);
    }
  }

  // ----- The text -----

  function First(a: byte): byte { Char(a / 4) }

  function Second(a: byte, b: byte): byte { Char(a % 4 * 16 + b / 16) }

  function Third(b: byte, c: byte): byte { Char(b % 16 * 4 + c / 64) }

  function Fourth(c: byte): byte { Char(c % 64) }

  /** The characters for up to three bytes. */
  function Group(d: Bytes): (t: Bytes)
    requires 0 < |d| <= 3
    ensures |t| == 4
  {
    if |d| == 3 then [First(d[0]), Second(d[0], d[1]), Third(d[1], d[2]), Fourth(d[2])]
    else if |d| == 2 then [First(d[0]), Second(d[0], d[1]), Third(d[1], 0), PAD]
    else [First(d[0]), Second(d[0], 0), PAD, PAD]
  }

  /** Four characters are the digits in radix 64 of the number that three bytes are in radix 256. */
  lemma GroupIsRadix64(d: Bytes)
    requires |d| == 3
    ensures var t := Group(d);
            && (forall i :: 0 <= i < 4 ==> Lookup(t[i]) < 64)
            && ((Lookup(t[0]) * 64 + Lookup(t[1])) * 64 + Lookup(t[2])) * 64 + Lookup(t[3])
               == (d[0] as int * 256 + d[1]) * 256 + d[2]
  {
    GroupCodes(d[0], d[1], d[2]);
    hide First, Second, Third, Fourth, Lookup;
    var a, b, c: nat := d[0], d[1], d[2];
    assert a == a / 4 * 4 + a % 4 && b == b / 16 * 16 + b % 16 && c == c / 64 * 64 + c % 64;
  }

  /** Missing bytes count as zero; padding stands for the digits that say nothing. */
  lemma GroupIsPadded(d: Bytes)
    requires 0 < |d| <= 2
    ensures var t, u := Group(d), Group(d + if |d| == 1 then [0, 0] else [0]);
            t[..|d| + 1] == u[..|d| + 1] && forall i :: |d| < i < 4 ==> t[i] == Ascii('=')
  {
  }

  function Text(d: Bytes): Bytes {
    if d == [] then [] else if |d| <= 3 then Group(d) else Group(d[..3]) + Text(d[3..])
  }

  /** Four characters for every three bytes begun. */
  lemma {:induction false} TextLength(d: Bytes)
    ensures |Text(d)| == (|d| + 2) / 3 * 4 && |Text(d)| % 4 == 0 && (Text(d) == [] <==> d == [])
  {
    hide Group;
    if |d| > 3 {
      TextLength(d[3..]);
      assert (|d| + 2) / 3 == (|d| - 3 + 2) / 3 + 1;
    }
  }

  // ----- Reading it -----

  /** With `Wild` the remaining length has gone below zero, and what follows is undefined. */
  datatype Decoded = Good(data: Bytes) | Invalid | Wild

  function Byte1(t: Bytes): byte
    requires |t| >= 2
  {
    (Lookup(t[0]) * 4 + Lookup(t[1]) / 16) % 256
  }

  function Byte2(t: Bytes): byte
    requires |t| >= 3
  {
    (Lookup(t[1]) * 16 + Lookup(t[2]) / 4) % 256
  }

  function Byte3(t: Bytes): byte
    requires |t| >= 4
  {
    (Lookup(t[2]) * 64 + Lookup(t[3])) % 256
  }

  /** Where the scan of the last group stops; the terminator is not in the alphabet. */
  function Stop(t: Bytes, i: nat): (j: nat)
    requires i <= |t|
    ensures i <= j <= |t|
    decreases |t| - i
  {
    if i < |t| && Lookup(t[i]) != 64 then Stop(t, i + 1) else i
  }

  /** The last group, or what there is of it. */
  function Tail(t: Bytes): Decoded
    requires |t| <= 4
  {
    var i := Stop(t, 0);
    if i < |t| && t[i] != PAD then Invalid
    else if |t| + i < 4 then Wild
    else
      var sz := |t| + i - 4;
      Good((if sz > 1 then [Byte1(t)] else []) + (if sz > 2 then [Byte2(t)] else [])
           + (if sz > 3 then [Byte3(t)] else []))
  }

  predicate InAlphabet(t: Bytes) { forall i :: 0 <= i < |t| ==> Lookup(t[i]) != 64 }

  function Read(t: Bytes): Decoded {
    if |t| <= 4 then Tail(t)
    else if !InAlphabet(t[..4]) then Invalid
    else
      match Read(t[4..])
      case Good(d) => Good([Byte1(t), Byte2(t), Byte3(t)] + d)
      case Invalid => Invalid
      case Wild => Wild
  }

  /** A text is undefined only where its length is no multiple of four, or it is empty. */
  lemma {:induction false} WildLength(t: Bytes)
    requires Read(t).Wild?
    ensures |t| % 4 != 0 || t == []
  {
    hide Lookup, Byte1, Byte2, Byte3, InAlphabet;
    if |t| > 4 { WildLength(t[4..]); }
  }

  // ----- The round trip -----

  lemma GroupCodes(a: byte, b: byte, c: byte)
    ensures Lookup(First(a)) == a / 4 && Lookup(Second(a, b)) == a % 4 * 16 + b / 16
    ensures Lookup(Third(b, c)) == b % 16 * 4 + c / 64 && Lookup(Fourth(c)) == c % 64
  {
    LookupOfChar(a / 4);
    LookupOfChar(a % 4 * 16 + b / 16);
    LookupOfChar(b % 16 * 4 + c / 64);
    LookupOfChar(c % 64);
  }

  lemma BitsBack(a: int, b: int, c: int)
    requires 0 <= a < 256 && 0 <= b < 256 && 0 <= c < 256
    ensures (a / 4 * 4 + (a % 4 * 16 + b / 16) / 16) % 256 == a
    ensures ((a % 4 * 16 + b / 16) * 16 + (b % 16 * 4 + c / 64) / 4) % 256 == b
    ensures ((b % 16 * 4 + c / 64) * 64 + c % 64) % 256 == c
  {
    assert (a % 4 * 16 + b / 16) / 16 == a % 4;
    assert (b % 16 * 4 + c / 64) / 4 == b % 16;
  }

  lemma GroupStops(d: Bytes)
    requires 0 < |d| <= 3
    ensures Stop(Group(d), 0) == |d| + 1 && (|d| < 3 ==> Group(d)[|d| + 1] == PAD)
  {
    var t := Group(d);
    var b, c := if |d| > 1 then d[1] else 0, if |d| > 2 then d[2] else 0;
    GroupCodes(d[0], b, c);
    assert Lookup(PAD) == 64;
    hide First, Second, Third, Fourth, Lookup, Stop;
    StopAt(t, |d| + 1);
  }

  lemma GroupLookup(d: Bytes)
    requires 0 < |d| <= 3
    ensures var t := Group(d); var b, c := if |d| > 1 then d[1] else 0, if |d| > 2 then d[2] else 0;
            && Lookup(t[0]) == d[0] / 4 && Lookup(t[1]) == d[0] % 4 * 16 + b / 16
            && (|d| > 1 ==> Lookup(t[2]) == b % 16 * 4 + c / 64) && (|d| > 2 ==> Lookup(t[3]) == c % 64)
  {
    var b, c := if |d| > 1 then d[1] else 0, if |d| > 2 then d[2] else 0;
    GroupCodes(d[0], b, c);
    hide First, Second, Third, Fourth, Lookup;
  }

  lemma GroupBytes(d: Bytes)
    requires 0 < |d| <= 3
    ensures var t := Group(d); Byte1(t) == d[0] && (|d| > 1 ==> Byte2(t) == d[1]) && (|d| > 2 ==> Byte3(t) == d[2])
  {
    hide Group, Lookup;
    GroupLookup(d);
    BitsBack(d[0], if |d| > 1 then d[1] else 0, if |d| > 2 then d[2] else 0);
  }

  /** A full group reads back, wherever it stands. */
  lemma FullGroup(d: Bytes, t: Bytes)
    requires |d| == 3 && |t| >= 4 && t[..4] == Group(d)
    ensures InAlphabet(t[..4]) && [Byte1(t), Byte2(t), Byte3(t)] == d
  {
    GroupBytes(d);
    GroupCodes(d[0], d[1], d[2]);
    assert t[0] == t[..4][0] && t[1] == t[..4][1] && t[2] == t[..4][2] && t[3] == t[..4][3];
    hide First, Second, Third, Fourth, Lookup;
  }

  lemma LastGroup(d: Bytes)
    requires 0 < |d| <= 3
    ensures Tail(Group(d)) == Good(d)
  {
    GroupBytes(d);
    GroupStops(d);
    hide Group, Byte1, Byte2, Byte3, Stop;
  }

  lemma StopAt(t: Bytes, k: nat)
    requires k <= |t| && (forall i :: 0 <= i < k ==> Lookup(t[i]) != 64) && (k < |t| ==> Lookup(t[k]) == 64)
    ensures Stop(t, 0) == k
  {
    hide Lookup;
    StopFrom(t, k, 0);
  }

  lemma {:induction false} StopFrom(t: Bytes, k: nat, i: nat)
    requires i <= k <= |t| && (forall j :: 0 <= j < k ==> Lookup(t[j]) != 64) && (k < |t| ==> Lookup(t[k]) == 64)
    ensures Stop(t, i) == k
    decreases k - i
  {
    hide Lookup;
    if i < k { StopFrom(t, k, i + 1); }
  }

  lemma TextStep(d: Bytes)
    requires |d| > 3
    ensures var t := Text(d); |t| > 4 && t[..4] == Group(d[..3]) && t[4..] == Text(d[3..])
    ensures d[..3] + d[3..] == d && Text(d[3..]) != []
  {
    hide Group;
    var t := Text(d);
    assert t == Group(d[..3]) + Text(d[3..]);
  }

  /** Every non-empty byte string comes back from its text. */
  lemma {:induction false} ReadInvertsText(d: Bytes)
    requires d != []
    ensures |Text(d)| % 4 == 0 && Text(d) != [] && Read(Text(d)) == Good(d)
  {
    hide Group, Tail, Byte1, Byte2, Byte3, InAlphabet;
    TextLength(d);
    if |d| <= 3 {
      LastGroup(d);
    } else {
      var t := Text(d);
      TextStep(d);
      ReadInvertsText(d[3..]);
      FullGroup(d[..3], t);
    }
  }

  // ----- Which texts are texts of what they read as -----

  /** The last group is padded as the encoder pads, with no bit set behind the data. */
  predicate CleanEnd(u: Bytes)
    requires |u| == 4
  {
    || InAlphabet(u)
    || (InAlphabet(u[..3]) && u[3] == PAD && Lookup(u[2]) % 4 == 0)
    || (InAlphabet(u[..2]) && u[2] == PAD && u[3] == PAD && Lookup(u[1]) % 16 == 0)
  }

  /** Bits packed into a byte, taken apart again. */
  lemma Unpack4(high: int, low: int)
    requires 0 <= high < 64 && 0 <= low < 4
    ensures var n := (high * 4 + low) % 256; n / 4 == high && n % 4 == low
  {
    assert 0 <= high * 4 + low < 256;
  }

  lemma LowByte(n: int, q: int, m: int)
    requires n == q * 256 + m && 0 <= m < 256
    ensures n % 256 == m
  {
  }

  lemma HighLow(h: int, l: int)
    requires 0 <= l < 16
    ensures (h * 16 + l) / 16 == h && (h * 16 + l) % 16 == l
  {
  }

  lemma Unpack16(high: int, low: int)
    requires 0 <= high < 64 && 0 <= low < 16
    ensures var n := (high * 16 + low) % 256; n / 16 == high % 16 && n % 16 == low
  {
    var h1, h0 := high / 16, high % 16;
    LowByte(high * 16 + low, h1, h0 * 16 + low);
    HighLow(h0, low);
  }

  lemma Unpack64(high: int, low: int)
    requires 0 <= high < 64 && 0 <= low < 64
    ensures var n := (high * 64 + low) % 256; n / 64 == high % 4 && n % 64 == low
  {
    var m := high % 4 * 64 + low;
    assert high * 64 + low == high / 4 * 256 + m && 0 <= m < 256;
  }

  lemma CodesBack(p: int, q: int, x: int, y: int)
    requires 0 <= p < 64 && 0 <= q < 64 && 0 <= x < 64 && 0 <= y < 64
    ensures var a, b, c := (p * 4 + q / 16) % 256, (q * 16 + x / 4) % 256, (x * 64 + y) % 256;
            && a / 4 == p && a % 4 * 16 + b / 16 == q && b % 16 * 4 + c / 64 == x && c % 64 == y
            && (a % 4 * 16 == q <==> q % 16 == 0) && (b % 16 * 4 == x <==> x % 4 == 0)
  {
    Unpack4(p, q / 16);
    Unpack16(q, x / 4);
    Unpack64(x, y);
    var a, b, c := (p * 4 + q / 16) % 256, (q * 16 + x / 4) % 256, (x * 64 + y) % 256;
    assert a % 4 == q / 16 && b / 16 == q % 16 && b % 16 == x / 4 && c / 64 == x % 4;
  }

  /** A group in the alphabet is the group of the bytes it stands for. */
  lemma FullBack(t: Bytes)
    requires |t| >= 4 && InAlphabet(t[..4])
    ensures Group([Byte1(t), Byte2(t), Byte3(t)]) == t[..4]
  {
    var u := t[..4];
    assert Lookup(u[0]) < 64 && Lookup(u[1]) < 64 && Lookup(u[2]) < 64 && Lookup(u[3]) < 64;
    hide Lookup, Char;
    CodesBack(Lookup(t[0]), Lookup(t[1]), Lookup(t[2]), Lookup(t[3]));
  }

  lemma {:induction false} StopMeans(t: Bytes, i: nat)
    requires i <= |t| && InAlphabet(t[..i])
    ensures var j := Stop(t, i); InAlphabet(t[..j]) && (j < |t| ==> Lookup(t[j]) == 64)
    decreases |t| - i
  {
    hide Lookup;
    if i < |t| && Lookup(t[i]) != 64 {
      assert t[..i + 1] == t[..i] + [t[i]];
      StopMeans(t, i + 1);
    }
  }

  /** The last group, when it is accepted: what it reads as has this text only with a clean end. */
  lemma LastBack(u: Bytes)
    requires |u| == 4 && Tail(u).Good?
    ensures Text(Tail(u).data) == u <==> CleanEnd(u)
  {
    var i, d := Stop(u, 0), Tail(u).data;
    StopMeans(u, 0);
    hide Stop, Lookup, Group, Byte1, Byte2, Byte3;
    if i == 4 {
      assert u[..4] == u;
      FullBack(u);
    } else if i == 3 {
      TwoBack(u);
    } else if i == 2 {
      OneBack(u);
    } else {
      NothingBack(u, i);
    }
  }

  lemma TwoBack(u: Bytes)
    requires |u| == 4 && InAlphabet(u[..3]) && u[3] == PAD
    ensures Group([Byte1(u), Byte2(u)]) == u <==> CleanEnd(u)
  {
    assert Lookup(u[..3][0]) < 64 && Lookup(u[..3][1]) < 64 && Lookup(u[..3][2]) < 64;
    assert Lookup(PAD) == 64;
    hide Lookup, Char;
    CodesBack(Lookup(u[0]), Lookup(u[1]), Lookup(u[2]), 0);
    var b := Byte2(u);
    CharInjective(b % 16 * 4, Lookup(u[2]));
  }

  lemma OneBack(u: Bytes)
    requires |u| == 4 && InAlphabet(u[..2]) && u[2] == PAD
    ensures Group([Byte1(u)]) == u <==> CleanEnd(u)
  {
    assert Lookup(u[..2][0]) < 64 && Lookup(u[..2][1]) < 64;
    assert Lookup(PAD) == 64;
    hide Lookup, Char;
    CodesBack(Lookup(u[0]), Lookup(u[1]), 0, 0);
    var a := Byte1(u);
    CharInjective(a % 4 * 16, Lookup(u[1]));
    Outside(u, 3, 2);
  }

  lemma Outside(t: Bytes, k: nat, i: nat)
    requires i < k <= |t| && Lookup(t[i]) == 64
    ensures !InAlphabet(t[..k]) && !InAlphabet(t)
  {
    assert t[..k][i] == t[i];
  }

  lemma NothingBack(u: Bytes, i: nat)
    requires |u| == 4 && i < 2 && Lookup(u[i]) == 64
    ensures !CleanEnd(u)
  {
    hide Lookup;
    Outside(u, 3, i);
    Outside(u, 2, i);
  }

  lemma CharInjective(v: nat, w: nat)
    requires v < 64 && w < 64
    ensures Char(v) == Char(w) <==> v == w
  {
  }

  lemma GroupFirst(x: Bytes, d: Bytes)
    requires |x| == 3
    ensures Text(x + d) == Group(x) + Text(d)
  {
    hide Group;
    assert (x + d)[..3] == x && (x + d)[3..] == d;
    if d == [] { assert x + d == x; }
  }

  lemma {:induction false} WholeInvertsRead(t: Bytes)
    requires |t| % 4 == 0 && t != [] && Read(t).Good?
    ensures Text(Read(t).data) == t <==> CleanEnd(t[|t| - 4..])
  {
    hide Text, Group, Tail, Byte1, Byte2, Byte3, InAlphabet, CleanEnd;
    if |t| == 4 {
      assert t[0..] == t;
      LastBack(t);
    } else {
      var x, d := [Byte1(t), Byte2(t), Byte3(t)], Read(t[4..]).data;
      WholeInvertsRead(t[4..]);
      FullBack(t);
      GroupFirst(x, d);
      assert t == t[..4] + t[4..];
      assert t[4..][|t| - 8..] == t[|t| - 4..];
      assert (Group(x) + Text(d))[4..] == Text(d);
    }
  }

  /** An accepted text is the text of what it reads as exactly when it is made of whole groups, the
      last of which has a clean end. */
  lemma TextInvertsRead(t: Bytes)
    requires Read(t).Good?
    ensures Text(Read(t).data) == t <==> |t| % 4 == 0 && CleanEnd(t[|t| - 4..])
  {
    TextLength(Read(t).data);
    hide Text;
    if |t| % 4 == 0 { WholeInvertsRead(t); }
  }

  // ----- The loops -----

  /** Four characters at `it`. */
  method Put4(a: array<byte>, it: nat, u: Bytes)
    requires |u| == 4 && it + 4 <= a.Length
    modifies a
    ensures a[..it + 4] == old(a[..it]) + u
  {
    a[it], a[it + 1], a[it + 2], a[it + 3] := u[0], u[1], u[2], u[3];
    assert a[..it + 4] == a[..it] + [a[it], a[it + 1], a[it + 2], a[it + 3]];
  }

  /** `encode` writes from the start of the buffer's memory and then sets the offset behind the text. */
  method Encode(ob: Buffer, data: Bytes) returns (ok: bool)
    requires ob.Valid() && Fits(ob.Abs(), Op.Reserve(2 + (|data| + 2) / 3 * 4))
    modifies ob, ob.m_data
    ensures ob.Valid() && ok && ob.Contents() == Text(data)
  {
    hide Text, Group, First, Second, Third, Fourth, Room, Missing, Aligned;
    RoomEnough(ob.Abs(), 2 + (|data| + 2) / 3 * 4);
    TextLength(data);
    ob.Reserve(2 + (|data| + 2) / 3 * 4);
    var out: array<byte> := ob.m_data;
    var it := EncodeLoop(out, data);
    out[it] := 0;
    assert out[..it] == Text(data);
    ok := ob.Bseek(it);
  }

  method EncodeLoop(out: array<byte>, data: Bytes) returns (it: nat)
    requires |Text(data)| < out.Length
    modifies out
    ensures it == |Text(data)| && out[..it] == Text(data)
  {
    hide Text, Group, First, Second, Third, Fourth;
    it := 0;
    var p, sz := 0, |data|;
    assert data[0..] == data;
    while sz >= 3
      invariant 0 <= sz && p + sz == |data| && it + |Text(data[p..])| == |Text(data)|
      invariant out[..it] + Text(data[p..]) == Text(data)
    {
      var d := data[p..p + 3];
      assert data[p..] == d + data[p + 3..];
      GroupFirst(d, data[p + 3..]);
      FullText(d);
      Put4(out, it, [First(d[0]), Second(d[0], d[1]), Third(d[1], d[2]), Fourth(d[2])]);
      it, p, sz := it + 4, p + 3, sz - 3;
    }
    assert data[p..] == if sz == 0 then [] else if sz == 1 then [data[p]] else [data[p], data[p + 1]];
    EndText(data[p..]);
    if sz == 1 {
      Put4(out, it, [First(data[p]), Second(data[p], 0), PAD, PAD]);
      it := it + 4;
    } else if sz == 2 {
      Put4(out, it, [First(data[p]), Second(data[p], data[p + 1]), Third(data[p + 1], 0), PAD]);
      it := it + 4;
    }
  }

  lemma FullText(d: Bytes)
    requires |d| == 3
    ensures Group(d) == [First(d[0]), Second(d[0], d[1]), Third(d[1], d[2]), Fourth(d[2])]
  {
  }

  lemma EndText(d: Bytes)
    requires |d| < 3
    ensures Text(d) == if |d| == 0 then [] else if |d| == 1 then [First(d[0]), Second(d[0], 0), PAD, PAD]
                       else [First(d[0]), Second(d[0], d[1]), Third(d[1], 0), PAD]
  {
  }

  function Prepend(d: Bytes, r: Decoded): Decoded {
    match r
    case Good(x) => Good(d + x)
    case Invalid => Invalid
    case Wild => Wild
  }

  lemma PrependMore(d: Bytes, x: Bytes, r: Decoded)
    ensures Prepend(d, Prepend(x, r)) == Prepend(d + x, r)
  {
    if r.Good? { assert d + (x + r.data) == d + x + r.data; }
  }

  lemma NothingYet(r: Decoded)
    ensures Prepend([], r) == r
  {
    if r.Good? { assert [] + r.data == r.data; }
  }

  lemma ReadStep(t: Bytes)
    requires |t| > 4
    ensures Read(t) == if InAlphabet(t[..4]) then Prepend([Byte1(t), Byte2(t), Byte3(t)], Read(t[4..])) else Invalid
  {
    hide Byte1, Byte2, Byte3, InAlphabet, Tail;
  }

  lemma FourChars(t: Bytes)
    requires |t| >= 4
    ensures InAlphabet(t[..4]) <==> Lookup(t[0]) != 64 && Lookup(t[1]) != 64 && Lookup(t[2]) != 64 && Lookup(t[3]) != 64
  {
    hide Lookup;
    assert t[..4] == [t[0], t[1], t[2], t[3]];
  }

  lemma SameBytes(u: Bytes, t: Bytes)
    requires |t| >= 4 && u == t[..4]
    ensures Byte1(u) == Byte1(t) && Byte2(u) == Byte2(t) && Byte3(u) == Byte3(t)
  {
    hide Lookup;
  }

  /** How a codec call ends. */
  datatype Status = Done | BadText | BadSeek | Undefined

  /** How the loop ends; without memory nothing can be written. */
  function LoopStatus(r: Decoded, memory: bool): Status {
    match r
    case Good(d) => if memory || d == [] then Done else Undefined
    case Invalid => BadText
    case Wild => Undefined
  }

  /** The text is followed by a terminator, which the scan of the last group may look at. */
  method DecodeLoop(data: array?<byte>, text: Bytes) returns (st: Status, pos: nat)
    requires if data == null then |text| < 4 else |text| / 4 * 3 < data.Length
    modifies data
    ensures st == LoopStatus(Read(text), data != null)
    ensures st.Done? ==> pos == |Read(text).data|
    ensures st.Done? && data != null ==> pos <= data.Length && data[..pos] == Read(text).data
  {
    hide Read, Tail, Lookup, Byte1, Byte2, Byte3, InAlphabet;
    if data == null {
      st, pos := DecodeNowhere(text);
      return;
    }
    var sz, it := |text|, 0;
    pos := 0;
    assert text[0..] == text;
    NothingYet(Read(text));
    while sz > 4
      invariant 0 <= sz && it + sz == |text| && it % 4 == 0 && 4 * pos == 3 * it && pos <= data.Length
      invariant Prepend(data[..pos], Read(text[it..])) == Read(text)
    {
      ghost var t, was := text[it..], data[..pos];
      ReadStep(t);
      FourChars(t);
      if Lookup(text[it]) == 64 || Lookup(text[it + 1]) == 64
         || Lookup(text[it + 2]) == 64 || Lookup(text[it + 3]) == 64 {
        return BadText, pos;
      }
      var u := text[it..it + 4];
      assert u == t[..4] && t[4..] == text[it + 4..];
      SameBytes(u, t);
      data[pos], data[pos + 1], data[pos + 2] := Byte1(u), Byte2(u), Byte3(u);
      pos := pos + 3;
      assert data[..pos] == was + [Byte1(t), Byte2(t), Byte3(t)];
      PrependMore(was, [Byte1(t), Byte2(t), Byte3(t)], Read(t[4..]));
      sz, it := sz - 4, it + 4;
    }
    ReadLast(text[it..]);
    ghost var was, last := data[..pos], Read(text[it..]);
    st, pos := DecodeLast(data, pos, text, it);
    assert st.Done? ==> Good(data[..pos]) == Prepend(was, last);
  }

  lemma ReadLast(t: Bytes)
    requires |t| <= 4
    ensures Read(t) == Tail(t)
  {
  }

  /** The scan of what is left of the text, up to four characters, from `it` on. */
  method Scan(text: Bytes, it: nat) returns (i: nat)
    requires it <= |text| <= it + 4
    ensures i == Stop(text[it..], 0) && it + i <= |text|
  {
    hide Lookup;
    var u := text[it..];
    i := 0;
    LookupOfNul();
    LookupOfPad();
    while At(text, it + i) != PAD && Lookup(At(text, it + i)) != 64
      invariant it + i <= |text| && Stop(u, i) == Stop(u, 0)
      decreases |text| - it - i
    {
      i := i + 1;
    }
  }

  /** A text too short to have been given any memory. */
  method DecodeNowhere(text: Bytes) returns (st: Status, pos: nat)
    requires |text| < 4
    ensures st == LoopStatus(Read(text), false) && (st.Done? ==> pos == 0 && Read(text).data == [])
  {
    hide Lookup, Byte1, Byte2, Byte3;
    assert text[0..] == text;
    var i := Scan(text, 0);
    pos := 0;
    if |text| - i != 0 && text[i] != PAD { return BadText, pos; }
    if |text| + i < 4 { return Undefined, pos; }
    st := if |text| + i - 4 > 1 then Undefined else Done;
  }

  method DecodeLast(data: array<byte>, pos0: nat, text: Bytes, it: nat) returns (st: Status, pos: nat)
    requires it <= |text| <= it + 4 && pos0 + (if |text| == it + 4 then 3 else 1) <= data.Length
    modifies data
    ensures st == LoopStatus(Tail(text[it..]), true)
    ensures st.Done? ==> pos <= data.Length && Good(data[..pos]) == Prepend(old(data[..pos0]), Tail(text[it..]))
  {
    hide Lookup, Byte1, Byte2, Byte3, Stop;
    ghost var was := data[..pos0];
    var u := text[it..];
    pos := pos0;
    var i := Scan(text, it);
    if |u| - i != 0 && u[i] != PAD { return BadText, pos; }
    if |u| + i < 4 { return Undefined, pos; }
    var sz := |u| + i - 4;
    if sz > 1 {
      data[pos] := Byte1(u);
      pos := pos + 1;
    }
    if sz > 2 {
      data[pos] := Byte2(u);
      pos := pos + 1;
    }
    if sz > 3 {
      data[pos] := Byte3(u);
      pos := pos + 1;
    }
    assert data[..pos] == was + data[pos0..pos];
    st := Done;
  }

  lemma LookupOfNul()
    ensures Lookup(0) == 64
  {
  }

  lemma LookupOfPad()
    ensures Lookup(PAD) == 64
  {
  }

  /** `decode` writes from the start of the buffer's memory and then moves the offset on by what it wrote. */
  method Decode(ob: Buffer, text: Bytes) returns (st: Status)
    requires ob.Valid() && Fits(ob.Abs(), Op.Reserve(|text| / 4 * 3))
    modifies ob, ob.m_data
    ensures ob.Valid() && ob.m_size == Apply(old(ob.Abs()), Op.Reserve(|text| / 4 * 3)).size
    ensures var loop := LoopStatus(Read(text), ob.m_data != null);
            st == if loop.Done? && old(ob.m_offset) + |Read(text).data| >= ob.m_size then BadSeek else loop
    ensures Missing(old(ob.Abs()), Op.Reserve(|text| / 4 * 3)) == 0 ==> ob.m_data == old(ob.m_data)
    ensures !st.Done? ==> ob.m_offset == old(ob.m_offset)
    ensures st.Done? ==> && ob.m_data != null && ob.m_offset == old(ob.m_offset) + |Read(text).data|
                         && |Read(text).data| <= ob.m_data.Length && ob.m_data[..|Read(text).data|] == Read(text).data
  {
    hide Read, Room, Missing, Aligned;
    RoomEnough(ob.Abs(), |text| / 4 * 3);
    ob.Reserve(|text| / 4 * 3);
    var data := ob.m_data;
    var pos;
    st, pos := DecodeLoop(data, text);
    if st != Done { return; }
    var ok := ob.Seek(pos);
    st := if ok then Done else BadSeek;
  }

  /** The string form of `decode` starts from a buffer of its own. */
  method DecodeString(text: Bytes) returns (st: Status, d: Bytes)
    requires Aligned(|text| / 4 * 3) + 1 < LIMIT
    ensures var loop := LoopStatus(Read(text), |text| >= 4);
            st == if loop.Done? && |Read(text).data| >= Aligned(|text| / 4 * 3) then BadSeek else loop
    ensures st.Done? ==> d == Read(text).data
  {
    hide Read;
    var ob := new Buffer(|text| / 4 * 3);
    assert |text| >= 4 <==> ob.m_size > 0;
    hide Aligned;
    st := Decode(ob, text);
    d := [];
    if st.Done? { d := ob.m_data[..ob.m_offset]; }
  }

  /** The last seek has room exactly when the number of bytes is not a multiple of 24. */
  lemma WrapperInvertsText(d: Bytes)
    requires d != []
    ensures Read(Text(d)) == Good(d) && |Text(d)| >= 4
    ensures |d| < Aligned(|Text(d)| / 4 * 3) <==> |d| % 24 != 0
  {
    ReadInvertsText(d);
    TextLength(d);
    hide Read, Text;
    var g := (|d| + 2) / 3;
    assert |Text(d)| / 4 * 3 == 3 * g;
    MultipleOf24(|d|, g);
  }

  lemma MultipleOf24(n: nat, g: nat)
    requires g == (n + 2) / 3 && n > 0
    ensures n < Aligned(3 * g) <==> n % 24 != 0
  {
    assert n <= 3 * g < n + 3;
  }
}
