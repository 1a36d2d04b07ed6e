/**
 JSON texts (sections 2 to 7 of RFC 8259): the two printers, compact and indented, and the
 recursive-descent parser. Decoding either printout of a tree gives the tree back.
 */
module JsonText {
  import opened Utf8
  import opened JsonNumber
  import opened JsonString

  /** A number is represented by its text. Arrays and objects share one list of children; a child
      has a key exactly when its parent is an object. */
  datatype Json =
    | Null
    | Bool(b: bool)
    | Str(s: Bytes)
    | Num(num: Bytes)
    | Coll(isObject: bool, kids: Kids)

  datatype Key = NoKey | Key(text: Bytes)

  datatype Kids = Nil | Kid(key: Key, value: Json, next: Kids)

  const LIT_NULL: Bytes := [0x6E, 0x75, 0x6C, 0x6C]
  const LIT_TRUE: Bytes := [0x74, 0x72, 0x75, 0x65]
  const LIT_FALSE: Bytes := [0x66, 0x61, 0x6C, 0x73, 0x65]
  const COMMA: byte := 0x2C
  const COLON: byte := 0x3A

  function Opening(isObject: bool): byte { if isObject then 0x7B else 0x5B }

  function Closing(isObject: bool): byte { if isObject then 0x7D else 0x5D }

  // ----- Printing -----

  /** Compact, or one child a line with `space` repeated for every level. */
  datatype Layout = Compact | Indented(space: Bytes)

  function Repeat(space: Bytes, n: nat): Bytes {
    if n == 0 then [] else space + Repeat(space, n - 1)
  }

  /** What stands before a child or a closing bracket. */
  function Break(lay: Layout, level: nat): Bytes {
    match lay
    case Compact => []
    case Indented(space) => [0x0A] + Repeat(space, level)
  }

  /** Every string in the tree can be printed. */
  predicate ValidStrings(v: Json) {
    match v
    case Str(s) => Validate(s)
    case Coll(_, kids) => ValidKids(kids)
    case _ => true
  }

  predicate ValidKids(kids: Kids) {
    kids.Kid? ==> (kids.key.Key? ==> Validate(kids.key.text)) && ValidStrings(kids.value) && ValidKids(kids.next)
  }

  function EmitNumber(num: Bytes): Bytes { if NumberIsValid(num) then num else LIT_NULL }

  function EmitKey(key: Key, lay: Layout): Bytes
    requires key.Key? ==> Validate(key.text)
  {
    match key
    case NoKey => []
    case Key(text) => EmitString(text) + (if lay.Compact? then [COLON] else [COLON, 0x20])
  }

  function Emit(v: Json, lay: Layout, level: nat): Bytes
    requires ValidStrings(v)
    decreases v
  {
    match v
    case Null => LIT_NULL
    case Bool(b) => if b then LIT_TRUE else LIT_FALSE
    case Str(s) => EmitString(s)
    case Num(num) => EmitNumber(num)
    case Coll(isObject, kids) =>
      [Opening(isObject)]
      + (if kids.Nil? then [] else Break(lay, level + 1) + EmitKids(kids, lay, level + 1) + Break(lay, level))
      + [Closing(isObject)]
  }

  function EmitKids(kids: Kids, lay: Layout, level: nat): Bytes
    requires ValidKids(kids) && kids.Kid?
    decreases kids
  {
    EmitKey(kids.key, lay) + Emit(kids.value, lay, level)
    + (if kids.next.Nil? then [] else [COMMA] + Break(lay, level) + EmitKids(kids.next, lay, level))
  }

  // ----- Parsing -----

  predicate IsSpace(c: byte) { c == 0x09 || c == 0x0A || c == 0x0D || c == 0x20 }

  function SkipSpace(t: Bytes): (r: Bytes)
    ensures |r| <= |t|
  {
    if IsSpace(At(t, 0)) then SkipSpace(t[1..]) else t
  }

  datatype Parsed = Fail | Ok(value: Json, rest: Bytes)

  datatype ParsedKids = NoKids | SomeKids(kids: Kids, rest: Bytes)

  datatype ParsedKey = BadKey | GoodKey(key: Key, rest: Bytes)

  function ParseLiteral(t: Bytes, lit: Bytes, v: Json): Parsed {
    if |lit| <= |t| && t[..|lit|] == lit then Ok(v, t[|lit|..]) else Fail
  }

  /** The key of an object member and the colon after it; nothing for an array element. */
  function ParseKey(isObject: bool, t: Bytes): (r: ParsedKey)
    ensures r.GoodKey? ==> |r.rest| <= |t|
  {
    if !isObject then GoodKey(NoKey, t) else
      match ParseString(t)
      case BadChars => BadKey
      case Chars(text, rest) =>
        StringIsSuffix(t);
        var u := SkipSpace(rest);
        if At(u, 0) != COLON then BadKey else GoodKey(Key(text), SkipSpace(u[1..]))
  }

  function ParseScalar(t: Bytes): (r: Parsed)
    ensures r.Ok? ==> |r.rest| < |t|
  {
    match At(t, 0)
    case 0x6E => ParseLiteral(t, LIT_NULL, Null)
    case 0x66 => ParseLiteral(t, LIT_FALSE, Bool(false))
    case 0x74 => ParseLiteral(t, LIT_TRUE, Bool(true))
    case 0x22 =>
      (match ParseString(t)
       case BadChars => Fail
       case Chars(s, rest) => StringIsSuffix(t); Ok(Str(s), rest))
    case _ =>
      match ParseNumber(t)
      case Bad => Fail
      case Rest(r) => NumberSuffix(t); Ok(Num(t[..|t| - |r|]), r)
  }

  function ParseValue(t: Bytes): (r: Parsed)
    ensures r.Ok? ==> |r.rest| < |t|
    decreases |t|, 0
  {
    var c := At(t, 0);
    if c == Opening(false) then ParseColl(false, t)
    else if c == Opening(true) then ParseColl(true, t)
    else ParseScalar(t)
  }

  function ParseColl(isObject: bool, t: Bytes): (r: Parsed)
    requires t != []
    ensures r.Ok? ==> |r.rest| < |t|
    decreases |t| - 1, 2
  {
    var u := SkipSpace(t[1..]);
    if At(u, 0) == Closing(isObject) then Ok(Coll(isObject, Nil), u[1..])
    else FromKids(isObject, ParseKids(isObject, u))
  }

  function FromKids(isObject: bool, r: ParsedKids): Parsed {
    match r
    case NoKids => Fail
    case SomeKids(kids, rest) => Ok(Coll(isObject, kids), rest)
  }

  function ParseKids(isObject: bool, t: Bytes): (r: ParsedKids)
    ensures r.SomeKids? ==> |r.rest| < |t|
    decreases |t|, 1
  {
    match ParseKey(isObject, t)
    case BadKey => NoKids
    case GoodKey(key, u) =>
      match ParseValue(u)
      case Fail => NoKids
      case Ok(v, w) =>
        var x := SkipSpace(w);
        if At(x, 0) == Closing(isObject) then SomeKids(Kid(key, v, Nil), x[1..])
        else if At(x, 0) != COMMA then NoKids
        else
          match ParseKids(isObject, SkipSpace(x[1..]))
          case NoKids => NoKids
          case SomeKids(kids, rest) => SomeKids(Kid(key, v, kids), rest)
  }

  datatype Decoded = Invalid | Valid(value: Json)

  /** A whole text: one value, with white space around it. */
  function Decode(t: Bytes): Decoded {
    match ParseValue(SkipSpace(t))
    case Fail => Invalid
    case Ok(v, rest) => if SkipSpace(rest) == [] then Valid(v) else Invalid
  }

  // ----- What the parser makes of a printout -----

  predicate SoundString(s: Bytes) { Validate(s) && 0 !in s }

  /** Trees as they are built: C strings of valid UTF-8, and keys exactly on object members. */
  predicate Sound(v: Json)
    decreases v
  {
    match v
    case Str(s) => SoundString(s)
    case Coll(isObject, kids) => SoundKids(isObject, kids)
    case _ => true
  }

  predicate SoundKids(isObject: bool, kids: Kids)
    decreases kids
  {
    kids.Kid? ==>
      && kids.key.Key? == isObject && (isObject ==> SoundString(kids.key.text))
      && Sound(kids.value) && SoundKids(isObject, kids.next)
  }

  /** No string or key contains the byte 0x1F. */
  predicate Clean(v: Json)
    decreases v
  {
    match v
    case Str(s) => 0x1F !in s
    case Coll(_, kids) => CleanKids(kids)
    case _ => true
  }

  predicate CleanKids(kids: Kids)
    decreases kids
  {
    kids.Kid? ==> (kids.key.Key? ==> 0x1F !in kids.key.text) && Clean(kids.value) && CleanKids(kids.next)
  }

  /** The tree with null in place of every number that is not a JSON number, such as an infinity. */
  function Norm(v: Json): Json
    decreases v
  {
    match v
    case Num(num) => if NumberIsValid(num) then v else Null
    case Coll(isObject, kids) => Coll(isObject, NormKids(kids))
    case _ => v
  }

  function NormKids(kids: Kids): Kids
    decreases kids
  {
    match kids
    case Nil => Nil
    case Kid(key, value, next) => Kid(key, Norm(value), NormKids(next))
  }

  /** Every number in the tree is a JSON number. */
  predicate Finite(v: Json)
    decreases v
  {
    match v
    case Num(num) => NumberIsValid(num)
    case Coll(_, kids) => FiniteKids(kids)
    case _ => true
  }

  predicate FiniteKids(kids: Kids)
    decreases kids
  {
    kids.Kid? ==> Finite(kids.value) && FiniteKids(kids.next)
  }

  lemma {:induction false} NormIsSame(v: Json)
    ensures Norm(v) == v <==> Finite(v)
    decreases v
  {
    if v.Coll? { NormKidsIsSame(v.kids); }
  }

  lemma {:induction false} NormKidsIsSame(kids: Kids)
    ensures NormKids(kids) == kids <==> FiniteKids(kids)
    decreases kids
  {
    if kids.Kid? {
      NormIsSame(kids.value);
      NormKidsIsSame(kids.next);
    }
  }

  lemma {:induction false} SoundIsValid(v: Json)
    requires Sound(v)
    ensures ValidStrings(v)
    decreases v
  {
    if v.Coll? { SoundKidsAreValid(v.isObject, v.kids); }
  }

  lemma {:induction false} SoundKidsAreValid(isObject: bool, kids: Kids)
    requires SoundKids(isObject, kids)
    ensures ValidKids(kids)
    decreases kids
  {
    if kids.Kid? {
      SoundIsValid(kids.value);
      SoundKidsAreValid(isObject, kids.next);
    }
  }

  /** What parsing the printout of `v` yields in front of `k`. */
  function Reread(v: Json, k: Bytes): Parsed { if Clean(v) then Ok(Norm(v), k) else Fail }

  function RereadKids(kids: Kids, k: Bytes): ParsedKids {
    if CleanKids(kids) then SomeKids(NormKids(kids), k) else NoKids
  }

  predicate AllSpace(w: Bytes) { forall i :: 0 <= i < |w| ==> IsSpace(w[i]) }

  /** Indentation is made of JSON white space. */
  predicate SpaceLayout(lay: Layout) { lay.Indented? ==> AllSpace(lay.space) }

  // ----- White space -----

  lemma {:induction false} SkipsSpace(w: Bytes, k: Bytes)
    requires AllSpace(w) && (k == [] || !IsSpace(k[0]))
    ensures SkipSpace(w + k) == k
  {
    if w == [] {
      assert w + k == k;
    } else {
      assert (w + k)[1..] == w[1..] + k;
      SkipsSpace(w[1..], k);
    }
  }

  lemma {:induction false} RepeatIsSpace(space: Bytes, n: nat)
    requires AllSpace(space)
    ensures AllSpace(Repeat(space, n))
  {
    if n > 0 { RepeatIsSpace(space, n - 1); }
  }

  lemma BreakIsSpace(lay: Layout, level: nat)
    requires SpaceLayout(lay)
    ensures AllSpace(Break(lay, level))
  {
    if lay.Indented? { RepeatIsSpace(lay.space, level); }
  }

  // ----- Round trip -----

  /** Text that starts a value: neither white space nor a closing bracket. */
  predicate StartsValue(t: Bytes) {
    t != [] && !IsSpace(t[0]) && t[0] != Closing(true) && t[0] != Closing(false) && t[0] != COMMA
  }

  lemma NumberStarts(num: Bytes)
    requires NumberIsValid(num)
    ensures num != [] && (num[0] == MINUS || IsDigit(num[0]))
  {
    hide FracPart, ExpPart;
    ParsesValid(num, []);
  }

  lemma ScalarRoundTrip(v: Json, lay: Layout, level: nat, k: Bytes)
    requires Sound(v) && !v.Coll? && ValidStrings(v) && EndsNumber(k)
    ensures StartsValue(Emit(v, lay, level)) && ParseValue(Emit(v, lay, level) + k) == Reread(v, k)
  {
    hide ParseColl, EmitChars, ParseNumber, ParseString;
    var e := Emit(v, lay, level);
    if v.Num? && NumberIsValid(v.num) {
      NumberRoundTrip(v.num, k);
    } else if v.Str? {
      hide Validate;
      StringRoundTrip(v.s, k);
    } else {
      assert (e + k)[..|e|] == e && (e + k)[|e|..] == k;
    }
  }

  lemma NumberRoundTrip(num: Bytes, k: Bytes)
    requires NumberIsValid(num) && EndsNumber(k)
    ensures StartsValue(num) && ParseValue(num + k) == Ok(Num(num), k)
  {
    NumberStarts(num);
    ParsesValid(num, k);
    assert (num + k)[..|num|] == num;
    hide ParseNumber, ParseColl;
  }

  lemma KeyRoundTrip(isObject: bool, key: Key, lay: Layout, k: Bytes)
    requires key.Key? == isObject && (isObject ==> SoundString(key.text)) && StartsValue(k)
    ensures StartsValue(EmitKey(key, lay) + k)
    ensures ParseKey(isObject, EmitKey(key, lay) + k)
            == if isObject && 0x1F in key.text then BadKey else GoodKey(key, k)
  {
    if isObject {
      MemberKeyRoundTrip(key, lay, k);
    } else {
      assert EmitKey(key, lay) + k == k;
    }
  }

  lemma MemberKeyRoundTrip(key: Key, lay: Layout, k: Bytes)
    requires key.Key? && SoundString(key.text) && StartsValue(k)
    ensures StartsValue(EmitKey(key, lay) + k)
    ensures ParseKey(true, EmitKey(key, lay) + k) == if 0x1F in key.text then BadKey else GoodKey(key, k)
  {
    hide SkipSpace, ParseString, EmitChars, Validate;
    var e := EmitString(key.text);
    var sep: Bytes := if lay.Compact? then [] else [0x20];
    var u := [COLON] + (sep + k);
    var t := EmitKey(key, lay) + k;
    assert t == e + u;
    assert e[0] == QUOTE;
    hide EmitString, EmitKey;
    StringRoundTrip(key.text, u);
    SkipsNone(u);
    assert u[1..] == sep + k;
    SkipsSpace(sep, k);
  }

  /** Main lemma: parsing either printout, at every level and in front of any text that cannot
      continue a number. */
  lemma {:induction false} ValueRoundTrip(v: Json, lay: Layout, level: nat, k: Bytes)
    requires Sound(v) && SpaceLayout(lay) && EndsNumber(k)
    ensures ValidStrings(v) && StartsValue(Emit(v, lay, level))
    ensures ParseValue(Emit(v, lay, level) + k) == Reread(v, k)
    decreases v
  {
    hide Emit, ParseValue, SpaceLayout, StartsValue;
    SoundIsValid(v);
    if v.Coll? {
      if v.kids.Kid? {
        BreakIsSpace(lay, level);
        KidsRoundTrip(v.isObject, v.kids, lay, level + 1, Break(lay, level), k);
        CollRoundTrip(v.isObject, v.kids, lay, level, k);
      } else {
        EmptyRoundTrip(v.isObject, lay, level, k);
      }
    } else {
      ScalarRoundTrip(v, lay, level, k);
    }
  }

  /** The text after the last child. */
  function Tail(isObject: bool, w: Bytes, k: Bytes): Bytes { w + ([Closing(isObject)] + k) }

  lemma TailEnds(isObject: bool, w: Bytes, k: Bytes)
    requires AllSpace(w)
    ensures EndsNumber(Tail(isObject, w, k)) && SkipSpace(Tail(isObject, w, k)) == [Closing(isObject)] + k
  {
    SkipsSpace(w, [Closing(isObject)] + k);
  }

  lemma EmptyRoundTrip(isObject: bool, lay: Layout, level: nat, k: Bytes)
    ensures var e := Emit(Coll(isObject, Nil), lay, level);
            StartsValue(e) && ParseValue(e + k) == Ok(Coll(isObject, Nil), k)
  {
    var t := Emit(Coll(isObject, Nil), lay, level) + k;
    assert t == [Opening(isObject), Closing(isObject)] + k;
    assert t[1..] == [Closing(isObject)] + k;
    SkipsNone(t[1..]);
    assert t[1..][1..] == k;
    hide Emit;
  }

  lemma EmitCollIs(isObject: bool, kids: Kids, lay: Layout, level: nat, k: Bytes)
    requires ValidKids(kids) && kids.Kid?
    ensures Emit(Coll(isObject, kids), lay, level) + k
            == [Opening(isObject)]
               + (Break(lay, level + 1) + (EmitKids(kids, lay, level + 1) + Tail(isObject, Break(lay, level), k)))
  {
    hide EmitKids, Break, Opening, Closing;
    var o, a, b, w := [Opening(isObject)], Break(lay, level + 1), EmitKids(kids, lay, level + 1), Break(lay, level);
    var c := [Closing(isObject)];
    assert o + (a + b + w) + c + k == o + (a + (b + (w + (c + k))));
  }

  lemma CollRoundTrip(isObject: bool, kids: Kids, lay: Layout, level: nat, k: Bytes)
    requires ValidKids(kids) && SpaceLayout(lay) && kids.Kid? && StartsValue(EmitKids(kids, lay, level + 1))
    requires ParseKids(isObject, EmitKids(kids, lay, level + 1) + Tail(isObject, Break(lay, level), k))
             == RereadKids(kids, k)
    ensures var e := Emit(Coll(isObject, kids), lay, level);
            StartsValue(e) && ParseValue(e + k) == Reread(Coll(isObject, kids), k)
  {
    hide EmitKids, ParseKids, Break, ParseValue, CleanKids, NormKids;
    var e := Emit(Coll(isObject, kids), lay, level);
    assert e[0] == Opening(isObject);
    EmitCollIs(isObject, kids, lay, level, k);
    hide Emit;
    var t, a, b := e + k, Break(lay, level + 1), EmitKids(kids, lay, level + 1);
    var body := b + Tail(isObject, Break(lay, level), k);
    assert t[1..] == a + body;
    assert body[0] == b[0];
    BreakIsSpace(lay, level + 1);
    SkipsSpace(a, body);
    CollOfKids(isObject, t, body);
  }

  lemma CollOfKids(isObject: bool, t: Bytes, body: Bytes)
    requires t != [] && t[0] == Opening(isObject) && SkipSpace(t[1..]) == body && StartsValue(body)
    ensures ParseValue(t) == FromKids(isObject, ParseKids(isObject, body))
  {
    hide ParseKids, SkipSpace;
  }

  /** The children, then white space and the closing bracket. */
  lemma {:induction false} KidsRoundTrip(isObject: bool, kids: Kids, lay: Layout, level: nat, w: Bytes, k: Bytes)
    requires kids.Kid? && SoundKids(isObject, kids) && SpaceLayout(lay) && AllSpace(w)
    ensures ValidKids(kids) && StartsValue(EmitKids(kids, lay, level))
    ensures ParseKids(isObject, EmitKids(kids, lay, level) + Tail(isObject, w, k)) == RereadKids(kids, k)
    decreases kids
  {
    hide EmitKids, ParseKids, Emit, ParseValue, SpaceLayout, StartsValue, SoundString, Tail, AllSpace, Reread,
         RereadKids;
    SoundKidsAreValid(isObject, kids);
    var after := AfterKid(kids, lay, level, isObject, w, k);
    if kids.next.Kid? {
      KidsRoundTrip(isObject, kids.next, lay, level, w, k);
      CommaEnds(lay, level, EmitKids(kids.next, lay, level) + Tail(isObject, w, k));
    } else {
      TailEnds(isObject, w, k);
    }
    ValueRoundTrip(kids.value, lay, level, after);
    KidRoundTrip(isObject, kids, lay, level, w, k);
  }

  /** What follows a child. */
  function AfterKid(kids: Kids, lay: Layout, level: nat, isObject: bool, w: Bytes, k: Bytes): Bytes
    requires kids.Kid? && ValidKids(kids)
  {
    if kids.next.Nil? then Tail(isObject, w, k)
    else [COMMA] + (Break(lay, level) + (EmitKids(kids.next, lay, level) + Tail(isObject, w, k)))
  }

  lemma CommaEnds(lay: Layout, level: nat, t: Bytes)
    requires SpaceLayout(lay)
    ensures EndsNumber([COMMA] + (Break(lay, level) + t))
    ensures StartsValue(t) ==> SkipSpace(([COMMA] + (Break(lay, level) + t))[1..]) == t
  {
    BreakIsSpace(lay, level);
    assert ([COMMA] + (Break(lay, level) + t))[1..] == Break(lay, level) + t;
    if StartsValue(t) { SkipsSpace(Break(lay, level), t); }
  }

  lemma Regroup(a: Bytes, b: Bytes, c: Bytes, d: Bytes, e: Bytes)
    ensures (a + b + ([COMMA] + d + e)) + c == a + (b + ([COMMA] + (d + (e + c))))
    ensures (a + b + []) + c == a + (b + c)
  {
    assert [COMMA] + d + e + c == [COMMA] + (d + (e + c));
  }

  lemma EmitKidsIs(kids: Kids, lay: Layout, level: nat, isObject: bool, w: Bytes, k: Bytes)
    requires kids.Kid? && ValidKids(kids)
    ensures EmitKids(kids, lay, level) + Tail(isObject, w, k)
            == EmitKey(kids.key, lay) + (Emit(kids.value, lay, level) + AfterKid(kids, lay, level, isObject, w, k))
  {
    hide Emit, EmitKey, Break, Tail;
    Regroup(EmitKey(kids.key, lay), Emit(kids.value, lay, level), Tail(isObject, w, k), Break(lay, level),
            if kids.next.Nil? then [] else EmitKids(kids.next, lay, level));
  }

  lemma KidRoundTrip(isObject: bool, kids: Kids, lay: Layout, level: nat, w: Bytes, k: Bytes)
    requires kids.Kid? && SoundKids(isObject, kids) && SpaceLayout(lay) && AllSpace(w) && ValidKids(kids)
    requires StartsValue(Emit(kids.value, lay, level))
    requires var after := AfterKid(kids, lay, level, isObject, w, k);
             ParseValue(Emit(kids.value, lay, level) + after) == Reread(kids.value, after)
    requires kids.next.Kid? ==>
               && StartsValue(EmitKids(kids.next, lay, level))
               && ParseKids(isObject, EmitKids(kids.next, lay, level) + Tail(isObject, w, k))
                  == RereadKids(kids.next, k)
    ensures StartsValue(EmitKids(kids, lay, level))
    ensures ParseKids(isObject, EmitKids(kids, lay, level) + Tail(isObject, w, k)) == RereadKids(kids, k)
  {
    hide Emit, ParseValue, ParseKey, SpaceLayout, SoundString, EmitKey, Break, AllSpace, SoundKids, Clean, Norm;
    var after := AfterKid(kids, lay, level, isObject, w, k);
    var body := Emit(kids.value, lay, level) + after;
    KeyOfKid(isObject, kids);
    KeyRoundTrip(isObject, kids.key, lay, body);
    EmitKidsIs(kids, lay, level, isObject, w, k);
    KidsStart(kids, lay, level, isObject, w, k);
    if kids.next.Kid? {
      var more := EmitKids(kids.next, lay, level) + Tail(isObject, w, k);
      CommaEnds(lay, level, more);
      SkipsNone(after);
    } else {
      TailEnds(isObject, w, k);
      assert kids.next == Nil && CleanKids(Nil) && NormKids(Nil) == Nil;
    }
  }

  lemma SkipsNone(t: Bytes)
    requires t != [] && !IsSpace(t[0])
    ensures SkipSpace(t) == t
  {
  }

  lemma KeyOfKid(isObject: bool, kids: Kids)
    requires kids.Kid? && SoundKids(isObject, kids)
    ensures kids.key.Key? == isObject && (isObject ==> SoundString(kids.key.text))
  {
  }

  lemma KidsStart(kids: Kids, lay: Layout, level: nat, isObject: bool, w: Bytes, k: Bytes)
    requires kids.Kid? && ValidKids(kids) && StartsValue(EmitKids(kids, lay, level) + Tail(isObject, w, k))
    requires StartsValue(Emit(kids.value, lay, level))
    ensures StartsValue(EmitKids(kids, lay, level))
  {
    hide Emit, EmitKey, Break, Tail;
    var e := EmitKids(kids, lay, level);
    assert e != [];
    assert (e + Tail(isObject, w, k))[0] == e[0];
  }

  /** Theorem: the printout of a tree, compact or indented, is rejected exactly when some string
      contains 0x1F, and otherwise decodes to the tree, with null for numbers that JSON lacks. */
  lemma DecodeOfEmit(v: Json, lay: Layout, level: nat)
    requires Sound(v) && SpaceLayout(lay)
    ensures ValidStrings(v)
    ensures Decode(Emit(v, lay, level)) == if Clean(v) then Valid(Norm(v)) else Invalid
  {
    hide Emit, ParseValue;
    ValueRoundTrip(v, lay, level, []);
    var e := Emit(v, lay, level);
    assert e + [] == e;
    SkipsNone(e);
  }

  /** Theorem: decoding inverts both printers, order of members and repeated keys included, for
      exactly the trees without 0x1F in a string and without a number that JSON lacks. */
  lemma DecodeInvertsEmit(v: Json, lay: Layout, level: nat)
    requires Sound(v) && SpaceLayout(lay)
    ensures ValidStrings(v)
    ensures Decode(Emit(v, lay, level)) == Valid(v) <==> Clean(v) && Finite(v)
  {
    DecodeOfEmit(v, lay, level);
    NormIsSame(v);
  }

  /** Theorem: the two printouts of a tree always decode alike. */
  lemma LayoutsAgree(v: Json, space: Bytes, level: nat)
    requires Sound(v) && AllSpace(space)
    ensures ValidStrings(v)
    ensures Decode(Emit(v, Indented(space), level)) == Decode(Emit(v, Compact, 0))
  {
    DecodeOfEmit(v, Indented(space), level);
    DecodeOfEmit(v, Compact, 0);
  }

  // ----- Parsed trees -----

  lemma {:induction false} SkipSpaceClean(t: Bytes)
    requires 0 !in t
    ensures 0 !in SkipSpace(t)
  {
    if IsSpace(At(t, 0)) { SkipSpaceClean(t[1..]); }
  }

  lemma StringIsSound(t: Bytes)
    requires ParseString(t).Chars? && 0 !in t
    ensures SoundString(ParseString(t).out) && 0 !in ParseString(t).rest
  {
    hide ParseChars;
    ParsedIsValid(t[1..]);
    StringIsSuffix(t);
  }

  lemma KeyIsSound(isObject: bool, t: Bytes)
    requires ParseKey(isObject, t).GoodKey? && 0 !in t
    ensures var r := ParseKey(isObject, t);
            r.key.Key? == isObject && (isObject ==> SoundString(r.key.text)) && 0 !in r.rest
  {
    hide ParseString, SkipSpace, SoundString;
    if isObject {
      StringIsSound(t);
      var u := SkipSpace(ParseString(t).rest);
      SkipSpaceClean(ParseString(t).rest);
      SkipSpaceClean(u[1..]);
    }
  }

  lemma ScalarIsSound(t: Bytes)
    requires ParseScalar(t).Ok? && 0 !in t
    ensures var r := ParseScalar(t); Sound(r.value) && Finite(r.value) && 0 !in r.rest
  {
    hide ParseString, ParseNumber;
    var c := At(t, 0);
    if c == 0x22 {
      StringIsSound(t);
    } else if c != 0x6E && c != 0x66 && c != 0x74 {
      NumberSuffix(t);
      var num := NumberText(t);
      assert t[..|t| - |ParseNumber(t).t|] == num;
      ValidIffNumber(num);
    }
  }

  /** Theorem: every tree the parser returns is sound, and all its numbers are JSON numbers. */
  lemma {:induction false} ParsedIsSound(t: Bytes)
    requires ParseValue(t).Ok? && 0 !in t
    ensures var r := ParseValue(t); Sound(r.value) && Finite(r.value) && 0 !in r.rest
    decreases |t|, 0
  {
    hide ParseKids, ParseScalar, SkipSpace;
    var c := At(t, 0);
    if c == Opening(false) || c == Opening(true) {
      var u := SkipSpace(t[1..]);
      SkipSpaceClean(t[1..]);
      var isObject := c == Opening(true);
      if At(u, 0) != Closing(isObject) { KidsAreSound(isObject, u); }
    } else {
      ScalarIsSound(t);
    }
  }

  lemma {:induction false} KidsAreSound(isObject: bool, t: Bytes)
    requires ParseKids(isObject, t).SomeKids? && 0 !in t
    ensures var r := ParseKids(isObject, t); SoundKids(isObject, r.kids) && FiniteKids(r.kids) && 0 !in r.rest
    decreases |t|, 1
  {
    hide ParseKey, ParseValue, SkipSpace, SoundString;
    KeyIsSound(isObject, t);
    var k := ParseKey(isObject, t);
    ParsedIsSound(k.rest);
    var r := ParseValue(k.rest);
    var x := SkipSpace(r.rest);
    SkipSpaceClean(r.rest);
    if At(x, 0) == COMMA {
      SkipSpaceClean(x[1..]);
      KidsAreSound(isObject, SkipSpace(x[1..]));
    }
  }

  /** Theorem: what was decoded prints and decodes again to the same tree, in either layout, unless
      some string holds the byte 0x1F. */
  lemma ReencodeRoundTrip(t: Bytes, lay: Layout)
    requires 0 !in t && Decode(t).Valid? && SpaceLayout(lay)
    ensures var v := Decode(t).value;
            ValidStrings(v) && Decode(Emit(v, lay, 0)) == if Clean(v) then Valid(v) else Invalid
  {
    hide ParseValue, SkipSpace, Emit;
    SkipSpaceClean(t);
    ParsedIsSound(SkipSpace(t));
    var v := Decode(t).value;
    DecodeOfEmit(v, lay, 0);
    NormIsSame(v);
  }
}
