/**
 What the wire operators write and read, as functions on bytes: little-endian scalars, integers with
 a length byte in front, byte strings, fixed blobs, vectors and records with filtered fields.
 */
module WireFormat {
  import opened Utf8
  import opened Radix

  // ----- Little-endian numbers -----

  /** The first `k` bytes of a number in memory. */
  function Le(k: nat, n: nat): (s: Bytes)
    ensures |s| == k
  {
    if k == 0 then [] else [n % 256] + Le(k - 1, n / 256)
  }

  function LeNum(s: Bytes): nat {
    if s == [] then 0 else s[0] + 256 * LeNum(s[1..])
  }

  lemma {:induction false} LeRoundTrip(k: nat, n: nat)
    requires n < Pow(256, k)
    ensures LeNum(Le(k, n)) == n
  {
    if k > 0 { LeRoundTrip(k - 1, n / 256); }
  }

  /** Bytes further on count multiples of the power of 256 that the bytes before them span. */
  lemma {:induction false} LeNumConcat(a: Bytes, b: Bytes)
    ensures LeNum(a + b) == LeNum(a) + Pow(256, |a|) * LeNum(b)
  {
    if a == [] {
      assert a + b == b;
    } else {
      assert (a + b)[1..] == a[1..] + b;
      LeNumConcat(a[1..], b);
      Shifted(Pow(256, |a| - 1), LeNum(b));
    }
  }

  lemma Shifted(p: nat, n: nat)
    ensures 256 * (p * n) == (p * 256) * n
  {
  }

  /** How many bytes a number needs. */
  function Len(n: nat): (k: nat)
    ensures k > 0 <==> n > 0
  {
    if n == 0 then 0 else 1 + Len(n / 256)
  }

  lemma {:induction false} LenEnough(n: nat)
    ensures n < Pow(256, Len(n))
  {
    if n > 0 { LenEnough(n / 256); }
  }

  lemma {:induction false} LenBound(n: nat, k: nat)
    requires n < Pow(256, k)
    ensures Len(n) <= k
  {
    if n > 0 { LenBound(n / 256, k - 1); }
  }

  // ----- Schemas and values -----

  type Width = w: nat | w == 1 || w == 2 || w == 4 || w == 8 witness 1

  type BlobSize = n: nat | 0 < n < WORD witness 1

  /** What is known of a type at compile time. A record keeps, per field, whether it is marked `unwire`. */
  datatype Type =
    | Scalar(width: Width)
    | Var
    | Text
    | Blob(size: BlobSize)
    | Vector(elem: Type)
    | Record(meta: bool, fields: Fields)

  datatype Fields = End | Field(unwire: bool, ty: Type, more: Fields)

  /** A scalar is the number its bytes stand for on a little-endian host. */
  datatype Value = Num(n: nat) | Str(bytes: Bytes) | List(items: seq<Value>)

  const WORD: nat := 0x1_0000_0000_0000_0000
  const DATA_RANGE: nat := 0x1_0000_0000
  const INT_MAX: nat := 0x7FFF_FFFF

  predicate Typed(ty: Type, v: Value) {
    match ty
    case Scalar(w) => v.Num? && v.n < Pow(256, w)
    case Var => v.Num? && v.n < WORD
    case Text => v.Str? && |v.bytes| < DATA_RANGE
    case Blob(size) => v.Str? && |v.bytes| == size
    case Vector(elem) => v.List? && |v.items| <= INT_MAX && forall i :: 0 <= i < |v.items| ==> Typed(elem, v.items[i])
    case Record(_, fields) => v.List? && TypedFields(fields, v.items)
  }

  predicate TypedFields(fields: Fields, vs: seq<Value>) {
    match fields
    case End => vs == []
    case Field(_, ty, more) => vs != [] && Typed(ty, vs[0]) && TypedFields(more, vs[1..])
  }

  /** Is a field on the wire? Meta types ask the filter the other way round. */
  predicate Sent(unwire: bool, meta: bool, always: bool) {
    !unwire || (if meta then !always else always)
  }

  // ----- Writing -----

  function EncVar(n: nat): (s: Bytes)
    requires Len(n) < 256
  {
    [Len(n)] + Le(Len(n), n)
  }

  lemma {:induction false} LenLeast(n: nat)
    ensures n > 0 ==> Pow(256, Len(n) - 1) <= n
  {
    if n / 256 > 0 { LenLeast(n / 256); }
  }

  /** The length byte counts the bytes behind it, no more of them than the number needs. */
  lemma VarLayout(n: nat)
    requires n < WORD
    ensures Len(n) < 256 && var s := EncVar(n); var k: nat := s[0];
            |s| == 1 + k && LeNum(s[1..]) == n < Pow(256, k) && (k > 0 ==> Pow(256, k - 1) <= n)
  {
    VarFits(n);
    LenEnough(n);
    LenLeast(n);
    LeRoundTrip(Len(n), n);
  }

  lemma VarFits(n: nat)
    requires n < WORD
    ensures Len(n) <= 8 && |EncVar(n)| <= 9
  {
    assert Pow(256, 8) == WORD;
    LenBound(n, 8);
  }

  function Enc(ty: Type, always: bool, v: Value): Bytes
    requires Typed(ty, v)
    decreases ty, 0
  {
    match ty
    case Scalar(w) => Le(w, v.n)
    case Var => VarFits(v.n); EncVar(v.n)
    case Text => VarFits(|v.bytes|); EncVar(|v.bytes|) + v.bytes
    case Blob(size) => VarFits(size); EncVar(size) + v.bytes
    case Vector(elem) => VarFits(|v.items|); EncVar(|v.items|) + EncItems(elem, always, v.items)
    case Record(meta, fields) => EncFields(fields, meta, always, v.items)
  }

  function EncItems(elem: Type, always: bool, vs: seq<Value>): Bytes
    requires forall i :: 0 <= i < |vs| ==> Typed(elem, vs[i])
    decreases elem, 1 + |vs|
  {
    if vs == [] then [] else Enc(elem, always, vs[0]) + EncItems(elem, always, vs[1..])
  }

  function EncFields(fields: Fields, meta: bool, always: bool, vs: seq<Value>): Bytes
    requires TypedFields(fields, vs)
    decreases fields, 0
  {
    match fields
    case End => []
    case Field(unwire, ty, more) =>
      (if Sent(unwire, meta, always) then Enc(ty, always, vs[0]) else []) + EncFields(more, meta, always, vs[1..])
  }

  // ----- Reading -----

  /** A read succeeds, throws, or runs into what C++ leaves undefined. */
  datatype Outcome<T> = Done(value: T, rest: Bytes) | Thrown | Undefined

  function DecVar(s: Bytes): Outcome<nat> {
    if s == [] then Thrown
    else if |s| - 1 < s[0] then Thrown
    else if s[0] > 8 then Undefined
    else Done(LeNum(s[1..1 + s[0]]), s[1 + s[0]..])
  }

  /** A fresh variable. */
  function Fresh(ty: Type): Value {
    match ty
    case Scalar(_) => Num(0)
    case Var => Num(0)
    case Text => Str([])
    case Blob(size) => Str(seq(size, _ => 0))
    case Vector(_) => List([])
    case Record(_, fields) => List(FreshFields(fields))
  }

  function FreshFields(fields: Fields): seq<Value> {
    match fields
    case End => []
    case Field(_, ty, more) => [Fresh(ty)] + FreshFields(more)
  }

  /** The variable that is read into holds something of its type. */
  predicate Target(ty: Type, t: Value) {
    match ty
    case Scalar(w) => t.Num?
    case Var => t.Num?
    case Text => t.Str?
    case Blob(size) => t.Str? && |t.bytes| == size
    case Vector(_) => t.List?
    case Record(_, fields) => t.List? && TargetFields(fields, t.items)
  }

  predicate TargetFields(fields: Fields, ts: seq<Value>) {
    match fields
    case End => ts == []
    case Field(_, ty, more) => ts != [] && Target(ty, ts[0]) && TargetFields(more, ts[1..])
  }

  /** Nothing but zeros and empty strings and lists. */
  predicate IsZero(v: Value) {
    match v
    case Num(n) => n == 0
    case Str(bytes) => forall i :: 0 <= i < |bytes| ==> bytes[i] == 0
    case List(items) => forall i :: 0 <= i < |items| ==> IsZero(items[i])
  }

  lemma {:induction false} FreshIsZero(ty: Type)
    ensures IsZero(Fresh(ty)) && (ty.Vector? ==> Fresh(ty) == List([])) && (ty.Text? ==> Fresh(ty) == Str([]))
  {
    if ty.Record? { FreshFieldsAreZero(ty.fields); }
  }

  lemma {:induction false} FreshFieldsAreZero(fields: Fields)
    ensures forall i :: 0 <= i < |FreshFields(fields)| ==> IsZero(FreshFields(fields)[i])
  {
    if fields.Field? {
      FreshIsZero(fields.ty);
      FreshFieldsAreZero(fields.more);
    }
  }

  lemma {:induction false} FreshIsTarget(ty: Type)
    ensures Target(ty, Fresh(ty))
  {
    if ty.Record? { FreshFieldsAreTargets(ty.fields); }
  }

  lemma {:induction false} FreshFieldsAreTargets(fields: Fields)
    ensures TargetFields(fields, FreshFields(fields))
  {
    if fields.Field? {
      FreshIsTarget(fields.ty);
      FreshFieldsAreTargets(fields.more);
    }
  }

  /** Read into the variable `t`. Entries are counted by an `int`. */
  function Dec(ty: Type, always: bool, t: Value, s: Bytes): Outcome<Value>
    requires Target(ty, t)
    decreases ty, 0
  {
    match ty
    case Scalar(w) => if |s| < w then Thrown else Done(Num(LeNum(s[..w])), s[w..])
    case Var =>
      (match DecVar(s)
       case Done(n, rest) => Done(Num(n), rest)
       case Thrown => Thrown
       case Undefined => Undefined)
    case Text =>
      (match DecVar(s)
       case Done(n, rest) =>
         if n == 0 then Done(t, rest)
         else if |rest| < n then Thrown
         else Done(Str(rest[..n % DATA_RANGE]), rest[n..])
       case Thrown => Thrown
       case Undefined => Undefined)
    case Blob(size) =>
      (match DecVar(s)
       case Done(n, rest) =>
         if n == 0 then Done(t, rest)
         else if |rest| < n || n > size then Thrown
         else Done(Str(rest[..n] + t.bytes[n..]), rest[n..])
       case Thrown => Thrown
       case Undefined => Undefined)
    case Vector(elem) =>
      (match DecVar(s)
       case Done(n, rest) =>
         if n <= INT_MAX then DecItems(elem, always, t.items, n, rest)
         else if DecItems(elem, always, t.items, INT_MAX + 1, rest).Thrown? then Thrown
         else Undefined
       case Thrown => Thrown
       case Undefined => Undefined)
    case Record(meta, fields) =>
      (match DecFields(fields, meta, always, t.items, s)
       case Done(vs, rest) => Done(List(vs), rest)
       case Thrown => Thrown
       case Undefined => Undefined)
  }

  /** The loop over `n` entries, appended to those already there. */
  function DecItems(elem: Type, always: bool, vs: seq<Value>, n: nat, s: Bytes): Outcome<Value>
    decreases elem, 1 + n
  {
    if n == 0 then Done(List(vs), s)
    else
      FreshIsTarget(elem);
      match Dec(elem, always, Fresh(elem), s)
      case Done(v, rest) => DecItems(elem, always, vs + [v], n - 1, rest)
      case Thrown => Thrown
      case Undefined => Undefined
  }

  function DecFields(fields: Fields, meta: bool, always: bool, ts: seq<Value>, s: Bytes): Outcome<seq<Value>>
    requires TargetFields(fields, ts)
    decreases fields, 0
  {
    match fields
    case End => Done([], s)
    case Field(unwire, ty, more) =>
      if Sent(unwire, meta, always) then
        match Dec(ty, always, ts[0], s)
        case Done(v, rest) => Cons(v, DecFields(more, meta, always, ts[1..], rest))
        case Thrown => Thrown
        case Undefined => Undefined
      else Cons(ts[0], DecFields(more, meta, always, ts[1..], s))
  }

  function Cons(v: Value, r: Outcome<seq<Value>>): Outcome<seq<Value>> {
    match r
    case Done(vs, rest) => Done([v] + vs, rest)
    case Thrown => Thrown
    case Undefined => Undefined
  }

  // ----- The round trip -----

  /** What a variable `t` holds after `v` has been written and read into it. */
  function Merge(ty: Type, always: bool, t: Value, v: Value): Value
    requires Typed(ty, v) && Target(ty, t)
    decreases ty, 0
  {
    match ty
    case Scalar(_) => v
    case Var => v
    case Text => if v.bytes == [] then t else v
    case Blob(_) => v
    case Vector(elem) => List(t.items + MergeItems(elem, always, v.items))
    case Record(meta, fields) => List(MergeFields(fields, meta, always, t.items, v.items))
  }

  function MergeItems(elem: Type, always: bool, vs: seq<Value>): seq<Value>
    requires forall i :: 0 <= i < |vs| ==> Typed(elem, vs[i])
    decreases elem, 1 + |vs|
  {
    FreshIsTarget(elem);
    if vs == [] then [] else [Merge(elem, always, Fresh(elem), vs[0])] + MergeItems(elem, always, vs[1..])
  }

  function MergeFields(fields: Fields, meta: bool, always: bool, ts: seq<Value>, vs: seq<Value>): seq<Value>
    requires TypedFields(fields, vs) && TargetFields(fields, ts)
    decreases fields, 0
  {
    match fields
    case End => []
    case Field(unwire, ty, more) =>
      [if Sent(unwire, meta, always) then Merge(ty, always, ts[0], vs[0]) else ts[0]]
      + MergeFields(more, meta, always, ts[1..], vs[1..])
  }

  lemma VarRoundTrip(n: nat, rest: Bytes)
    requires n < WORD
    ensures Len(n) <= 8 && DecVar(EncVar(n) + rest) == Done(n, rest)
  {
    VarFits(n);
    LenEnough(n);
    LeRoundTrip(Len(n), n);
    var s := EncVar(n) + rest;
    assert s[1..1 + Len(n)] == Le(Len(n), n) && s[1 + Len(n)..] == rest;
  }

  lemma {:induction false} LeInverse(s: Bytes)
    ensures Le(|s|, LeNum(s)) == s
    ensures Len(LeNum(s)) <= |s|
    ensures Len(LeNum(s)) == |s| <==> s == [] || s[|s| - 1] != 0
  {
    if s != [] {
      LeInverse(s[1..]);
      var n := LeNum(s[1..]);
      assert (s[0] + 256 * n) % 256 == s[0] && (s[0] + 256 * n) / 256 == n;
      if |s| > 1 { assert s[1..][|s| - 2] == s[|s| - 1]; }
    }
  }

  /** What is read is what would be written for it exactly when the last byte is not a needless zero. */
  lemma VarCanonical(s: Bytes)
    requires DecVar(s).Done?
    ensures var n := DecVar(s).value;
            && n < WORD && Len(n) <= 8
            && (s == EncVar(n) + DecVar(s).rest <==> s[0] == 0 || s[s[0]] != 0)
  {
    var n, rest := DecVar(s).value, DecVar(s).rest;
    var b := s[1..1 + s[0]];
    LeInverse(b);
    LenEnough(n);
    assert Pow(256, 8) == WORD;
    PowGrows(Len(n), 8);
    if Len(n) == |b| {
      assert s == EncVar(n) + rest;
    } else {
      assert EncVar(n)[0] != s[0];
    }
  }

  lemma {:induction false} PowGrows(j: nat, k: nat)
    requires j <= k
    ensures Pow(256, j) <= Pow(256, k)
  {
    if j < k { PowGrows(j, k - 1); }
  }

  /** Reading what was written gives back the value, merged into the target, and leaves what follows. */
  lemma {:induction false} WireRoundTrip(ty: Type, always: bool, t: Value, v: Value, rest: Bytes)
    requires Typed(ty, v) && Target(ty, t)
    ensures Dec(ty, always, t, Enc(ty, always, v) + rest) == Done(Merge(ty, always, t, v), rest)
    decreases ty, 0
  {
    hide EncVar, DecVar, Le, LeNum, Pow, Len;
    match ty
    case Scalar(w) =>
      LeRoundTrip(w, v.n);
      assert (Le(w, v.n) + rest)[..w] == Le(w, v.n) && (Le(w, v.n) + rest)[w..] == rest;
    case Var => VarRoundTrip(v.n, rest);
    case Text => BytesRoundTrip(v.bytes, rest);
    case Blob(size) =>
      BytesRoundTrip(v.bytes, rest);
      assert v.bytes + t.bytes[size..] == v.bytes;
    case Vector(elem) =>
      var n := |v.items|;
      VarRoundTrip(n, EncItems(elem, always, v.items) + rest);
      assert EncVar(n) + EncItems(elem, always, v.items) + rest == EncVar(n) + (EncItems(elem, always, v.items) + rest);
      ItemsRoundTrip(elem, always, t.items, v.items, rest);
    case Record(meta, fields) => FieldsRoundTrip(fields, meta, always, t.items, v.items, rest);
  }

  lemma Assoc(a: Bytes, b: Bytes, c: Bytes)
    ensures a + b + c == a + (b + c)
  {
  }

  lemma BytesRoundTrip(b: Bytes, rest: Bytes)
    requires |b| < WORD
    ensures Len(|b|) <= 8 && DecVar(EncVar(|b|) + b + rest) == Done(|b|, b + rest)
    ensures (b + rest)[..|b|] == b && (b + rest)[|b|..] == rest
  {
    VarRoundTrip(|b|, b + rest);
    assert EncVar(|b|) + b + rest == EncVar(|b|) + (b + rest);
  }

  lemma {:induction false} ItemsRoundTrip(elem: Type, always: bool, got: seq<Value>, vs: seq<Value>, rest: Bytes)
    requires forall i :: 0 <= i < |vs| ==> Typed(elem, vs[i])
    ensures DecItems(elem, always, got, |vs|, EncItems(elem, always, vs) + rest)
         == Done(List(got + MergeItems(elem, always, vs)), rest)
    decreases elem, 1 + |vs|
  {
    hide Enc, Dec, Merge, Typed, Fresh;
    if vs == [] {
      assert [] + rest == rest && got + [] == got;
    } else {
      FreshIsTarget(elem);
      var more := EncItems(elem, always, vs[1..]) + rest;
      var v := Merge(elem, always, Fresh(elem), vs[0]);
      assert EncItems(elem, always, vs) + rest == Enc(elem, always, vs[0]) + more;
      WireRoundTrip(elem, always, Fresh(elem), vs[0], more);
      ItemsRoundTrip(elem, always, got + [v], vs[1..], rest);
      assert got + [v] + MergeItems(elem, always, vs[1..]) == got + MergeItems(elem, always, vs);
    }
  }

  lemma {:induction false} FieldsRoundTrip(fields: Fields, meta: bool, always: bool, ts: seq<Value>, vs: seq<Value>,
                                           rest: Bytes)
    requires TypedFields(fields, vs) && TargetFields(fields, ts)
    ensures DecFields(fields, meta, always, ts, EncFields(fields, meta, always, vs) + rest)
         == Done(MergeFields(fields, meta, always, ts, vs), rest)
    decreases fields, 0
  {
    hide Enc, Dec, Merge, Typed;
    if fields.End? {
      assert [] + rest == rest;
    } else {
      var tail := EncFields(fields.more, meta, always, vs[1..]);
      FieldsRoundTrip(fields.more, meta, always, ts[1..], vs[1..], rest);
      if Sent(fields.unwire, meta, always) {
        Assoc(Enc(fields.ty, always, vs[0]), tail, rest);
        WireRoundTrip(fields.ty, always, ts[0], vs[0], tail + rest);
      } else {
        assert [] + tail == tail;
      }
    }
  }

  /** Every message ends by itself: what is written determines what is read and where the next one begins. */
  lemma SelfDelimiting(ty: Type, always: bool, t: Value, v: Value, w: Value, x: Bytes, y: Bytes)
    requires Typed(ty, v) && Typed(ty, w) && Target(ty, t)
    requires Enc(ty, always, v) + x == Enc(ty, always, w) + y
    ensures Merge(ty, always, t, v) == Merge(ty, always, t, w) && x == y
  {
    WireRoundTrip(ty, always, t, v, x);
    WireRoundTrip(ty, always, t, w, y);
  }

  // ----- Fresh variables -----

  /** No field is held back by the filter. */
  predicate AllSent(ty: Type, always: bool) {
    match ty
    case Scalar(_) => true
    case Var => true
    case Text => true
    case Blob(_) => true
    case Vector(elem) => AllSent(elem, always)
    case Record(meta, fields) => AllFieldsSent(fields, meta, always)
  }

  predicate AllFieldsSent(fields: Fields, meta: bool, always: bool) {
    match fields
    case End => true
    case Field(unwire, ty, more) =>
      Sent(unwire, meta, always) && AllSent(ty, always) && AllFieldsSent(more, meta, always)
  }

  /** A fresh variable gets exactly the value written, if the filter lets every field through. */
  lemma {:induction false} FreshGetsValue(ty: Type, always: bool, v: Value)
    requires Typed(ty, v) && AllSent(ty, always)
    ensures Target(ty, Fresh(ty)) && Merge(ty, always, Fresh(ty), v) == v
    decreases ty, 0
  {
    FreshIsTarget(ty);
    match ty
    case Scalar(_) =>
    case Var =>
    case Text =>
    case Blob(_) =>
    case Vector(elem) => FreshItemsGetValues(elem, always, v.items);
    case Record(meta, fields) => FreshFieldsGetValues(fields, meta, always, v.items);
  }

  lemma {:induction false} FreshItemsGetValues(elem: Type, always: bool, vs: seq<Value>)
    requires AllSent(elem, always) && forall i :: 0 <= i < |vs| ==> Typed(elem, vs[i])
    ensures MergeItems(elem, always, vs) == vs
    decreases elem, 1 + |vs|
  {
    if vs != [] {
      FreshGetsValue(elem, always, vs[0]);
      FreshItemsGetValues(elem, always, vs[1..]);
    }
  }

  lemma {:induction false} FreshFieldsGetValues(fields: Fields, meta: bool, always: bool, vs: seq<Value>)
    requires TypedFields(fields, vs) && AllFieldsSent(fields, meta, always)
    ensures TargetFields(fields, FreshFields(fields))
    ensures MergeFields(fields, meta, always, FreshFields(fields), vs) == vs
    decreases fields, 0
  {
    if fields.Field? {
      FreshIsTarget(fields.ty);
      FreshGetsValue(fields.ty, always, vs[0]);
      FreshFieldsGetValues(fields.more, meta, always, vs[1..]);
    }
  }

  /** Whatever the filter holds back: a copy read into a fresh variable is written as the same bytes. */
  lemma {:induction false} CopyWritesSame(ty: Type, always: bool, v: Value)
    requires Typed(ty, v)
    ensures Target(ty, Fresh(ty))
    ensures var c := Merge(ty, always, Fresh(ty), v); Typed(ty, c) && Enc(ty, always, c) == Enc(ty, always, v)
    decreases ty, 0
  {
    FreshIsTarget(ty);
    match ty
    case Scalar(_) =>
    case Var =>
    case Text =>
    case Blob(_) =>
    case Vector(elem) =>
      CopiedItems(elem, always, v.items);
      assert [] + MergeItems(elem, always, v.items) == MergeItems(elem, always, v.items);
    case Record(meta, fields) => CopiedFields(fields, meta, always, v.items);
  }

  lemma {:induction false} CopiedItems(elem: Type, always: bool, vs: seq<Value>)
    requires forall i :: 0 <= i < |vs| ==> Typed(elem, vs[i])
    ensures var cs := MergeItems(elem, always, vs);
            && |cs| == |vs| && (forall i :: 0 <= i < |cs| ==> Typed(elem, cs[i]))
            && EncItems(elem, always, cs) == EncItems(elem, always, vs)
    decreases elem, 1 + |vs|
  {
    hide Enc, Merge, Typed, Fresh;
    if vs != [] {
      CopyWritesSame(elem, always, vs[0]);
      CopiedItems(elem, always, vs[1..]);
      assert MergeItems(elem, always, vs)[1..] == MergeItems(elem, always, vs[1..]);
    }
  }

  lemma {:induction false} CopiedFields(fields: Fields, meta: bool, always: bool, vs: seq<Value>)
    requires TypedFields(fields, vs)
    ensures TargetFields(fields, FreshFields(fields))
    ensures var cs := MergeFields(fields, meta, always, FreshFields(fields), vs);
            TypedFields(fields, cs) && EncFields(fields, meta, always, cs) == EncFields(fields, meta, always, vs)
    decreases fields, 0
  {
    hide Enc, Merge, Typed, Fresh;
    FreshFieldsAreTargets(fields);
    if fields.Field? {
      FreshIsTyped(fields.ty);
      CopyWritesSame(fields.ty, always, vs[0]);
      CopiedFields(fields.more, meta, always, vs[1..]);
      var cs := MergeFields(fields, meta, always, FreshFields(fields), vs);
      assert FreshFields(fields)[1..] == FreshFields(fields.more);
      assert cs[1..] == MergeFields(fields.more, meta, always, FreshFields(fields.more), vs[1..]);
    }
  }

  lemma {:induction false} FreshIsTyped(ty: Type)
    ensures Typed(ty, Fresh(ty))
  {
    match ty
    case Scalar(w) => PowPositive(256, w);
    case Var =>
    case Text =>
    case Blob(_) =>
    case Vector(_) =>
    case Record(_, fields) => FreshFieldsAreTyped(fields);
  }

  lemma {:induction false} FreshFieldsAreTyped(fields: Fields)
    ensures TypedFields(fields, FreshFields(fields))
  {
    if fields.Field? {
      FreshIsTyped(fields.ty);
      FreshFieldsAreTyped(fields.more);
    }
  }
}
