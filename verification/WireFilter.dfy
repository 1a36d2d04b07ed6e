/**
 Which fields are on the wire. Fields marked `unwire` are held back in records unless `always` is set,
 and in meta types if it is set; everything else is written whole.
 */
module WireFilter {
  import opened Utf8
  import opened WireFormat

  // ----- Types without the marked fields -----

  /** The type without the marked fields of its records, or of its meta types, at every depth. */
  function Drop(ty: Type, metas: bool): Type {
    match ty
    case Vector(elem) => Vector(Drop(elem, metas))
    case Record(meta, fields) => Record(meta, DropFields(fields, meta, metas))
    case _ => ty
  }

  function DropFields(fields: Fields, meta: bool, metas: bool): Fields {
    match fields
    case End => End
    case Field(unwire, ty, more) =>
      if unwire && meta == metas then DropFields(more, meta, metas)
      else Field(unwire, Drop(ty, metas), DropFields(more, meta, metas))
  }

  /** What is left of a value. */
  function DropValue(ty: Type, metas: bool, v: Value): Value
    requires Typed(ty, v)
    decreases ty, 0
  {
    match ty
    case Vector(elem) => List(DropItems(elem, metas, v.items))
    case Record(meta, fields) => List(DropValues(fields, meta, metas, v.items))
    case _ => v
  }

  function DropItems(elem: Type, metas: bool, vs: seq<Value>): (ws: seq<Value>)
    requires forall i :: 0 <= i < |vs| ==> Typed(elem, vs[i])
    ensures |ws| == |vs|
    decreases elem, 1 + |vs|
  {
    if vs == [] then [] else [DropValue(elem, metas, vs[0])] + DropItems(elem, metas, vs[1..])
  }

  function DropValues(fields: Fields, meta: bool, metas: bool, vs: seq<Value>): seq<Value>
    requires TypedFields(fields, vs)
    decreases fields, 0
  {
    match fields
    case End => []
    case Field(unwire, ty, more) =>
      (if unwire && meta == metas then [] else [DropValue(ty, metas, vs[0])]) + DropValues(more, meta, metas, vs[1..])
  }

  // ----- Writing without a filter -----

  /** All of a value, one part after the other. */
  function Whole(ty: Type, v: Value): Bytes
    requires Typed(ty, v)
    decreases ty, 0
  {
    match ty
    case Vector(elem) => VarFits(|v.items|); EncVar(|v.items|) + WholeItems(elem, v.items)
    case Record(_, fields) => WholeFields(fields, v.items)
    case Scalar(w) => Le(w, v.n)
    case Var => VarFits(v.n); EncVar(v.n)
    case _ => VarFits(|v.bytes|); EncVar(|v.bytes|) + v.bytes
  }

  function WholeItems(elem: Type, vs: seq<Value>): Bytes
    requires forall i :: 0 <= i < |vs| ==> Typed(elem, vs[i])
    decreases elem, 1 + |vs|
  {
    if vs == [] then [] else Whole(elem, vs[0]) + WholeItems(elem, vs[1..])
  }

  function WholeFields(fields: Fields, vs: seq<Value>): Bytes
    requires TypedFields(fields, vs)
    decreases fields, 0
  {
    if fields.End? then [] else Whole(fields.ty, vs[0]) + WholeFields(fields.more, vs[1..])
  }

  /** What is written is all of what is left. */
  lemma {:induction false} WritesWhatIsLeft(ty: Type, always: bool, v: Value)
    requires Typed(ty, v)
    ensures var d, w := Drop(ty, always), DropValue(ty, always, v); Typed(d, w) && Enc(ty, always, v) == Whole(d, w)
    decreases ty, 0
  {
    hide EncVar, Le;
    match ty
    case Vector(elem) => ItemsLeft(elem, always, v.items);
    case Record(meta, fields) => FieldsLeft(fields, meta, always, v.items);
    case _ =>
  }

  lemma {:induction false} ItemsLeft(elem: Type, always: bool, vs: seq<Value>)
    requires forall i :: 0 <= i < |vs| ==> Typed(elem, vs[i])
    ensures var d, ws := Drop(elem, always), DropItems(elem, always, vs);
            (forall i :: 0 <= i < |ws| ==> Typed(d, ws[i])) && EncItems(elem, always, vs) == WholeItems(d, ws)
    decreases elem, 1 + |vs|
  {
    hide Enc, Whole, Drop, DropValue, Typed;
    if vs != [] {
      WritesWhatIsLeft(elem, always, vs[0]);
      ItemsLeft(elem, always, vs[1..]);
      assert DropItems(elem, always, vs)[1..] == DropItems(elem, always, vs[1..]);
    }
  }

  lemma {:induction false} FieldsLeft(fields: Fields, meta: bool, always: bool, vs: seq<Value>)
    requires TypedFields(fields, vs)
    ensures var d, ws := DropFields(fields, meta, always), DropValues(fields, meta, always, vs);
            TypedFields(d, ws) && EncFields(fields, meta, always, vs) == WholeFields(d, ws)
    decreases fields, 0
  {
    hide Enc, Whole, Drop, DropValue, Typed;
    if fields.Field? {
      WritesWhatIsLeft(fields.ty, always, vs[0]);
      FieldsLeft(fields.more, meta, always, vs[1..]);
      var w, ws := DropValue(fields.ty, always, vs[0]), DropValues(fields.more, meta, always, vs[1..]);
      assert ([w] + ws)[1..] == ws && [] + ws == ws;
    }
  }

  /** Theorem: by default the marked fields of records are not on the wire, at any depth, and all others are. */
  lemma DefaultHoldsBackRecords(ty: Type, v: Value)
    requires Typed(ty, v)
    ensures Typed(Drop(ty, false), DropValue(ty, false, v))
    ensures Enc(ty, false, v) == Whole(Drop(ty, false), DropValue(ty, false, v))
  {
    WritesWhatIsLeft(ty, false, v);
  }

  /** Theorem: with `always`, the marked fields of meta types are not on the wire, and all others are. */
  lemma AlwaysHoldsBackMetas(ty: Type, v: Value)
    requires Typed(ty, v)
    ensures Typed(Drop(ty, true), DropValue(ty, true, v))
    ensures Enc(ty, true, v) == Whole(Drop(ty, true), DropValue(ty, true, v))
  {
    WritesWhatIsLeft(ty, true, v);
  }

  // ----- Values that differ in marked fields only -----

  predicate SameUnmarked(fields: Fields, vs: seq<Value>, ws: seq<Value>)
    requires TypedFields(fields, vs) && TypedFields(fields, ws)
  {
    fields.Field? ==> (fields.unwire || vs[0] == ws[0]) && SameUnmarked(fields.more, vs[1..], ws[1..])
  }

  lemma {:induction false} SameIsLeft(fields: Fields, meta: bool, vs: seq<Value>, ws: seq<Value>)
    requires TypedFields(fields, vs) && TypedFields(fields, ws) && SameUnmarked(fields, vs, ws)
    ensures DropValues(fields, meta, meta, vs) == DropValues(fields, meta, meta, ws)
  {
    if fields.Field? { SameIsLeft(fields.more, meta, vs[1..], ws[1..]); }
  }

  /** Theorem: values that differ in marked fields only are written alike: records by default, and meta
      types with `always`. */
  lemma MarkedDoNotShow(fields: Fields, vs: seq<Value>, ws: seq<Value>)
    requires TypedFields(fields, vs) && TypedFields(fields, ws) && SameUnmarked(fields, vs, ws)
    ensures Enc(Record(false, fields), false, List(vs)) == Enc(Record(false, fields), false, List(ws))
    ensures Enc(Record(true, fields), true, List(vs)) == Enc(Record(true, fields), true, List(ws))
  {
    FieldsLeft(fields, false, false, vs);
    FieldsLeft(fields, false, false, ws);
    FieldsLeft(fields, true, true, vs);
    FieldsLeft(fields, true, true, ws);
    SameIsLeft(fields, false, vs, ws);
    SameIsLeft(fields, true, vs, ws);
  }

  // ----- What is read -----

  /** All records in the type are meta types, or none is. */
  predicate Uniform(ty: Type, meta: bool) {
    match ty
    case Vector(elem) => Uniform(elem, meta)
    case Record(m, fields) => m == meta && UniformFields(fields, meta)
    case _ => true
  }

  predicate UniformFields(fields: Fields, meta: bool) {
    fields.Field? ==> Uniform(fields.ty, meta) && UniformFields(fields.more, meta)
  }

  lemma {:induction false} UniformIsSent(ty: Type, meta: bool)
    requires Uniform(ty, meta)
    ensures AllSent(ty, !meta)
  {
    match ty
    case Vector(elem) => UniformIsSent(elem, meta);
    case Record(_, fields) => UniformFieldsAreSent(fields, meta);
    case _ =>
  }

  lemma {:induction false} UniformFieldsAreSent(fields: Fields, meta: bool)
    requires UniformFields(fields, meta)
    ensures AllFieldsSent(fields, meta, !meta)
  {
    if fields.Field? {
      UniformIsSent(fields.ty, meta);
      UniformFieldsAreSent(fields.more, meta);
    }
  }

  /** Theorem: with `always`, a fresh variable of a type without meta types gets the whole value; by
      default, one of a type whose records are all meta types. */
  lemma WholeComesBack(ty: Type, v: Value, rest: Bytes)
    requires Typed(ty, v)
    ensures Target(ty, Fresh(ty))
    ensures Uniform(ty, false) ==> Dec(ty, true, Fresh(ty), Enc(ty, true, v) + rest) == Done(v, rest)
    ensures Uniform(ty, true) ==> Dec(ty, false, Fresh(ty), Enc(ty, false, v) + rest) == Done(v, rest)
  {
    FreshIsTarget(ty);
    WireRoundTrip(ty, true, Fresh(ty), v, rest);
    WireRoundTrip(ty, false, Fresh(ty), v, rest);
    if Uniform(ty, false) {
      UniformIsSent(ty, false);
      FreshGetsValue(ty, true, v);
    }
    if Uniform(ty, true) {
      UniformIsSent(ty, true);
      FreshGetsValue(ty, false, v);
    }
  }

  /** Marked fields are as they were; the others have got what was written. */
  predicate MarkedKept(fields: Fields, always: bool, ts: seq<Value>, vs: seq<Value>, rs: seq<Value>)
    requires TypedFields(fields, vs) && TargetFields(fields, ts)
  {
    match fields
    case End => rs == []
    case Field(unwire, ty, more) =>
      && rs != [] && rs[0] == (if unwire then ts[0] else Merge(ty, always, ts[0], vs[0]))
      && MarkedKept(more, always, ts[1..], vs[1..], rs[1..])
  }

  lemma {:induction false} MergeKeepsMarked(fields: Fields, meta: bool, ts: seq<Value>, vs: seq<Value>)
    requires TypedFields(fields, vs) && TargetFields(fields, ts)
    ensures MarkedKept(fields, meta, ts, vs, MergeFields(fields, meta, meta, ts, vs))
  {
    hide Merge, Typed, Target;
    if fields.Field? {
      MergeKeepsMarked(fields.more, meta, ts[1..], vs[1..]);
      var r := MergeFields(fields, meta, meta, ts, vs);
      assert r[1..] == MergeFields(fields.more, meta, meta, ts[1..], vs[1..]);
    }
  }

  /** Theorem: reading leaves the marked fields of a record alone by default, and those of a meta type
      with `always`. */
  lemma MarkedAreNotRead(fields: Fields, ts: seq<Value>, vs: seq<Value>, rest: Bytes)
    requires TypedFields(fields, vs) && TargetFields(fields, ts)
    ensures var r := Dec(Record(false, fields), false, List(ts), Enc(Record(false, fields), false, List(vs)) + rest);
            r.Done? && r.rest == rest && r.value.List? && MarkedKept(fields, false, ts, vs, r.value.items)
    ensures var r := Dec(Record(true, fields), true, List(ts), Enc(Record(true, fields), true, List(vs)) + rest);
            r.Done? && r.rest == rest && r.value.List? && MarkedKept(fields, true, ts, vs, r.value.items)
  {
    hide Enc, Dec, MarkedKept;
    WireRoundTrip(Record(false, fields), false, List(ts), List(vs), rest);
    WireRoundTrip(Record(true, fields), true, List(ts), List(vs), rest);
    MergeKeepsMarked(fields, false, ts, vs);
    MergeKeepsMarked(fields, true, ts, vs);
  }
}
