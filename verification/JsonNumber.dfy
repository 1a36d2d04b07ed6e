/**
 The number grammar of section 6 of RFC 8259. A number is represented by its text; a parser
 takes the text from the cursor on and gives back the text that remains.
 */
module JsonNumber {
  import opened Utf8

  datatype Rest = Bad | Rest(t: Bytes)

  const MINUS: byte := 0x2D
  const PLUS: byte := 0x2B
  const DOT: byte := 0x2E
  const ZERO: byte := 0x30

  predicate IsDigit(c: byte) { 0x30 <= c <= 0x39 }

  predicate IsExp(c: byte) { c == 0x45 || c == 0x65 }

  predicate AllDigits(t: Bytes) { forall i :: 0 <= i < |t| ==> IsDigit(t[i]) }

  function SkipDigits(t: Bytes): Bytes {
    if IsDigit(At(t, 0)) then SkipDigits(t[1..]) else t
  }

  function Digits1(t: Bytes): Rest {
    if IsDigit(At(t, 0)) then Rest(SkipDigits(t[1..])) else Bad
  }

  function Sign(t: Bytes): Bytes { if At(t, 0) == MINUS then t[1..] else t }

  function IntPart(t: Bytes): Rest { if At(t, 0) == ZERO then Rest(t[1..]) else Digits1(t) }

  function FracPart(t: Bytes): Rest { if At(t, 0) == DOT then Digits1(t[1..]) else Rest(t) }

  function ExpSign(t: Bytes): Bytes { if At(t, 0) == PLUS || At(t, 0) == MINUS then t[1..] else t }

  function ExpPart(t: Bytes): Rest { if IsExp(At(t, 0)) then Digits1(ExpSign(t[1..])) else Rest(t) }

  function ParseNumber(t: Bytes): Rest {
    match IntPart(Sign(t))
    case Bad => Bad
    case Rest(u) =>
      match FracPart(u)
      case Bad => Bad
      case Rest(v) => ExpPart(v)
  }

  predicate NumberIsValid(num: Bytes) { ParseNumber(num) == Rest([]) }

  // ----- The grammar -----

  /** Decimal digits, by their characters. */
  predicate Decimal(t: Bytes): (r: bool)
    ensures r == AllDigits(t)
  {
    forall i :: 0 <= i < |t| ==> Ascii('0') <= t[i] <= Ascii('9')
  }

  predicate SignText(a: Bytes) { a == [] || a == [Ascii('-')] }

  predicate IntText(b: Bytes) { b == [Ascii('0')] || (b != [] && Decimal(b) && b[0] != Ascii('0')) }

  predicate FracText(c: Bytes) { c == [] || (|c| > 1 && c[0] == Ascii('.') && Decimal(c[1..])) }

  predicate ExpText(d: Bytes) {
    d != [] ==>
      && (d[0] == Ascii('e') || d[0] == Ascii('E'))
      && var n := if |d| > 1 && (d[1] == Ascii('+') || d[1] == Ascii('-')) then 2 else 1;
         |d| > n && Decimal(d[n..])
  }

  /** '-'? (0 | [1-9][0-9]*) ('.' [0-9]+)? ([Ee] [+-]? [0-9]+)? */
  ghost predicate IsNumber(num: Bytes) {
    exists a: Bytes, b: Bytes, c: Bytes, d: Bytes ::
      SignText(a) && IntText(b) && FracText(c) && ExpText(d) && num == a + b + c + d
  }

  /** Text after which a number has certainly ended. */
  predicate EndsNumber(k: Bytes) {
    k == [] || (!IsDigit(k[0]) && k[0] != DOT && !IsExp(k[0]))
  }

  // ----- What each part reads -----

  lemma {:induction false} SkipsDigits(ds: Bytes, k: Bytes)
    requires AllDigits(ds) && (k == [] || !IsDigit(k[0]))
    ensures SkipDigits(ds + k) == k
  {
    if ds == [] {
      assert ds + k == k;
    } else {
      assert (ds + k)[1..] == ds[1..] + k;
      SkipsDigits(ds[1..], k);
    }
  }

  lemma ReadsDigits(ds: Bytes, k: Bytes)
    requires ds != [] && AllDigits(ds) && (k == [] || !IsDigit(k[0]))
    ensures Digits1(ds + k) == Rest(k)
  {
    assert (ds + k)[1..] == ds[1..] + k;
    SkipsDigits(ds[1..], k);
  }

  lemma ReadsInt(b: Bytes, k: Bytes)
    requires IntText(b) && (k == [] || !IsDigit(k[0]))
    ensures IntPart(b + k) == Rest(k)
  {
    if b == [ZERO] {
      assert (b + k)[1..] == k;
    } else {
      ReadsDigits(b, k);
    }
  }

  lemma ReadsFrac(c: Bytes, k: Bytes)
    requires FracText(c) && (k == [] || (!IsDigit(k[0]) && k[0] != DOT))
    ensures FracPart(c + k) == Rest(k)
  {
    if c == [] {
      assert c + k == k;
    } else {
      assert (c + k)[1..] == c[1..] + k;
      ReadsDigits(c[1..], k);
    }
  }

  lemma ReadsExp(d: Bytes, k: Bytes)
    requires ExpText(d) && EndsNumber(k)
    ensures ExpPart(d + k) == Rest(k)
  {
    if d == [] {
      assert d + k == k;
    } else {
      var t := (d + k)[1..];
      assert t == d[1..] + k;
      if IsDigit(d[1]) {
        ReadsDigits(d[1..], k);
      } else {
        assert t[1..] == d[2..] + k;
        ReadsDigits(d[2..], k);
      }
    }
  }

  lemma ReadsSign(a: Bytes, b: Bytes, u: Bytes)
    requires SignText(a) && IntText(b)
    ensures Sign(a + (b + u)) == b + u
  {
    var t := b + u;
    if a == [MINUS] { assert (a + t)[1..] == t; } else { assert a + t == t; }
  }

  /** A text of the grammar is read to its end, whatever follows that cannot continue it. */
  lemma ReadsParts(a: Bytes, b: Bytes, c: Bytes, d: Bytes, k: Bytes)
    requires SignText(a) && IntText(b) && FracText(c) && ExpText(d) && EndsNumber(k)
    ensures ParseNumber(a + (b + (c + (d + k)))) == Rest(k)
  {
    var v := d + k;
    var u := c + v;
    var t := b + u;
    ReadsSign(a, b, u);
    hide IntPart, FracPart, ExpPart, Sign;
    assert v == [] || (!IsDigit(v[0]) && v[0] != DOT);
    assert u == [] || !IsDigit(u[0]);
    hide AllDigits;
    ReadsInt(b, u);
    ReadsFrac(c, v);
    ReadsExp(d, k);
  }

  lemma ReadsNumber(num: Bytes, k: Bytes)
    requires IsNumber(num) && EndsNumber(k)
    ensures num != [] && ParseNumber(num + k) == Rest(k)
  {
    hide ParseNumber;
    var a: Bytes, b: Bytes, c: Bytes, d: Bytes :|
      SignText(a) && IntText(b) && FracText(c) && ExpText(d) && num == a + b + c + d;
    ReadsParts(a, b, c, d, k);
    assert b != [];
    hide SignText, IntText, FracText, ExpText;
    Regroup(a, b, c, d, k);
  }

  lemma Regroup(a: Bytes, b: Bytes, c: Bytes, d: Bytes, k: Bytes)
    ensures a + b + c + d + k == a + (b + (c + (d + k)))
  {
    assert a + b + (c + (d + k)) == a + (b + (c + (d + k)));
    assert a + b + c + (d + k) == a + b + (c + (d + k));
  }

  // ----- What a part that was read looks like -----

  lemma {:induction false} SkippedText(t: Bytes) returns (ds: Bytes)
    ensures AllDigits(ds) && t == ds + SkipDigits(t)
  {
    if IsDigit(At(t, 0)) {
      ds := SkippedText(t[1..]);
      ds := [t[0]] + ds;
    } else {
      ds := [];
    }
  }

  lemma DigitsText(t: Bytes) returns (ds: Bytes)
    requires Digits1(t).Rest?
    ensures ds != [] && AllDigits(ds) && t == ds + Digits1(t).t && t != [] && ds[0] == t[0]
  {
    ds := SkippedText(t[1..]);
    ds := [t[0]] + ds;
  }

  lemma IntTextRead(t: Bytes) returns (b: Bytes)
    requires IntPart(t).Rest?
    ensures IntText(b) && t == b + IntPart(t).t
  {
    if At(t, 0) == ZERO {
      b := [ZERO];
    } else {
      b := DigitsText(t);
    }
  }

  lemma FracTextRead(t: Bytes) returns (c: Bytes)
    requires FracPart(t).Rest?
    ensures FracText(c) && t == c + FracPart(t).t
  {
    hide Digits1;
    if At(t, 0) == DOT {
      var ds := DigitsText(t[1..]);
      c := [DOT] + ds;
      assert c[1..] == ds;
    } else {
      c := [];
    }
  }

  lemma ExpTextRead(t: Bytes) returns (d: Bytes)
    requires ExpPart(t).Rest?
    ensures ExpText(d) && t == d + ExpPart(t).t
  {
    hide Digits1, Decimal, ExpText;
    if IsExp(At(t, 0)) {
      var ds := DigitsText(ExpSign(t[1..]));
      var head := if ExpSign(t[1..]) == t[1..] then [t[0]] else [t[0], t[1]];
      d := head + ds;
      FirstDigit(ds);
      hide AllDigits;
      IsExponent(head, ds);
    } else {
      d := [];
      NoExponent();
    }
  }

  lemma FirstDigit(ds: Bytes)
    requires ds != [] && AllDigits(ds)
    ensures IsDigit(ds[0])
  {
  }

  lemma NoExponent()
    ensures ExpText([])
  {
  }

  lemma IsExponent(head: Bytes, ds: Bytes)
    requires 0 < |head| <= 2 && IsExp(head[0]) && (|head| == 2 ==> head[1] == PLUS || head[1] == MINUS)
    requires ds != [] && Decimal(ds) && IsDigit(ds[0])
    ensures ExpText(head + ds)
  {
    hide Decimal;
    assert (head + ds)[|head|..] == ds;
  }

  lemma SignTextRead(t: Bytes) returns (a: Bytes)
    ensures SignText(a) && t == a + Sign(t)
  {
    a := if At(t, 0) == MINUS then [MINUS] else [];
  }

  /** What the parser consumed is a text of the grammar. */
  lemma NumberText(t: Bytes) returns (num: Bytes)
    requires ParseNumber(t).Rest?
    ensures IsNumber(num) && t == num + ParseNumber(t).t
  {
    hide IntPart, FracPart, ExpPart, Sign, SignText, IntText, FracText, ExpText;
    var a := SignTextRead(t);
    var b := IntTextRead(Sign(t));
    var u := IntPart(Sign(t)).t;
    var c := FracTextRead(u);
    var v := FracPart(u).t;
    var d := ExpTextRead(v);
    num := a + b + c + d;
    assert a + (b + (c + (d + ParseNumber(t).t))) == num + ParseNumber(t).t;
  }

  /** Theorem: the validity check accepts exactly the grammar. */
  lemma ValidIffNumber(num: Bytes)
    ensures NumberIsValid(num) <==> IsNumber(num)
  {
    if IsNumber(num) {
      ReadsNumber(num, []);
      assert num + [] == num;
    }
    if NumberIsValid(num) {
      var l := NumberText(num);
      assert l + [] == l;
    }
  }

  /** A valid number is read to its end in front of text that cannot continue it. */
  lemma ParsesValid(num: Bytes, k: Bytes)
    requires NumberIsValid(num) && EndsNumber(k)
    ensures num != [] && ParseNumber(num + k) == Rest(k)
  {
    ValidIffNumber(num);
    ReadsNumber(num, k);
  }

  /** The remaining text is a proper suffix. */
  lemma NumberSuffix(t: Bytes)
    requires ParseNumber(t).Rest?
    ensures var r := ParseNumber(t).t; |r| < |t| && r == t[|t| - |r|..]
  {
    var num := NumberText(t);
    if num == [] {
      ReadsNumber([], []);
      assert false;
    }
  }

  // ----- The cursor version -----

  method SkipDigitRun(s: Bytes, p: nat) returns (q: nat)
    requires p < |s| && IsDigit(s[p])
    ensures p < q <= |s| && Digits1(s[p..]) == Rest(s[q..])
  {
    q := p + 1;
    while q < |s| && IsDigit(s[q])
      invariant p < q <= |s| && SkipDigits(s[p + 1..]) == SkipDigits(s[q..])
    {
      assert s[q..][1..] == s[q + 1..];
      q := q + 1;
    }
    assert s[p..][1..] == s[p + 1..];
  }

  method ScanInt(s: Bytes, p: nat) returns (ok: bool, q: nat)
    requires p <= |s|
    ensures p <= q <= |s| && IntPart(s[p..]) == if ok then Rest(s[q..]) else Bad
  {
    ok, q := true, p;
    if At(s, p) == ZERO {
      q := p + 1;
    } else if IsDigit(At(s, p)) {
      q := SkipDigitRun(s, p);
    } else {
      ok := false;
    }
  }

  method ScanFrac(s: Bytes, p: nat) returns (ok: bool, q: nat)
    requires p <= |s|
    ensures p <= q <= |s| && FracPart(s[p..]) == if ok then Rest(s[q..]) else Bad
  {
    ok, q := true, p;
    if At(s, p) == DOT {
      q := p + 1;
      assert s[p..][1..] == s[q..];
      if !IsDigit(At(s, q)) { ok := false; return; }
      q := SkipDigitRun(s, q);
    }
  }

  method ScanExp(s: Bytes, p: nat) returns (ok: bool, q: nat)
    requires p <= |s|
    ensures p <= q <= |s| && ExpPart(s[p..]) == if ok then Rest(s[q..]) else Bad
  {
    ok, q := true, p;
    if IsExp(At(s, p)) {
      q := p + 1;
      assert s[p..][1..] == s[q..];
      if At(s, q) == PLUS || At(s, q) == MINUS { q := q + 1; }
      assert s[q..] == ExpSign(s[p + 1..]);
      if !IsDigit(At(s, q)) { ok := false; return; }
      q := SkipDigitRun(s, q);
    }
  }

  /** Reads a number at the cursor `p`; on failure the cursor does not move. */
  method ScanNumber(s: Bytes, p: nat) returns (ok: bool, q: nat)
    requires p <= |s|
    ensures p <= q <= |s| && (!ok ==> q == p)
    ensures ParseNumber(s[p..]) == if ok then Rest(s[q..]) else Bad
  {
    hide IntPart, FracPart, ExpPart;
    var i := p;
    if At(s, i) == MINUS { i := i + 1; }
    assert s[i..] == Sign(s[p..]);
    ok, i := ScanInt(s, i);
    if !ok { return ok, p; }
    ok, i := ScanFrac(s, i);
    if !ok { return ok, p; }
    ok, i := ScanExp(s, i);
    q := if ok then i else p;
  }
}
