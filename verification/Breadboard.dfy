/**
 Integers of variable length, and the board the wire operators write to and read from: a buffer of
 fixed size with a head and a tail.
 */
module Breadboard {
  import opened Utf8
  import opened Radix
  import opened WireFormat

  /** An unsigned 64-bit integer, kept in memory most significant byte first. */
  class VarInt {
    const mData: array<byte>

    ghost predicate Valid()
      reads this
    {
      mData.Length == 8
    }

    function Reversed(s: Bytes): (t: Bytes)
      ensures |t| == |s| && forall i :: 0 <= i < |s| ==> t[i] == s[|s| - 1 - i]
    {
      seq(|s|, i requires 0 <= i < |s| => s[|s| - 1 - i])
    }

    /** `be64toh` of the bytes, on a little-endian host. */
    function Read(): nat
      requires Valid()
      reads this, mData
    {
      LeNum(Reversed(mData[..]))
    }

    constructor (v: nat)
      requires v < WORD
      ensures Valid() && fresh(mData) && Read() == v
    {
      mData := new byte[8];
      new;
      Write(v);
    }

    /** `htobe64` into the bytes. */
    method Write(v: nat)
      requires Valid() && v < WORD
      modifies mData
      ensures Read() == v
    {
      var le := Le(8, v);
      forall i | 0 <= i < 8 { mData[i] := le[7 - i]; }
      assert Reversed(mData[..]) == le;
      assert Pow(256, 8) == WORD;
      LeRoundTrip(8, v);
    }

    /** Shift and count. */
    method Length() returns (sz: nat)
      requires Valid()
      ensures sz == Len(Read())
    {
      sz := 0;
      var tmp := Read();
      while tmp > 0
        invariant sz + Len(tmp) == Len(Read())
        decreases tmp
      {
        tmp := tmp / 256;
        sz := sz + 1;
      }
    }
  }

  /** A step that succeeds, throws, or runs into what C++ leaves undefined. */
  datatype Status = Ok | Throws | Undef

  class Board {
    const sink: array<byte>
    const M: nat
    var H: nat
    var T: nat

    ghost predicate Valid()
      reads this
    {
      H <= T <= M && M == sink.Length
    }

    /** The bytes written and not yet read. */
    ghost function Contents(): (s: Bytes)
      requires Valid()
      reads this, sink
    {
      sink[H..T]
    }

    constructor (buf: array<byte>)
      ensures Valid() && Contents() == [] && sink == buf && M == buf.Length && T == 0
    {
      sink, M := buf, buf.Length;
      H, T := 0, 0;
    }

    method Forward(e: Bytes) returns (ok: bool)
      requires Valid()
      modifies this`T, sink
      ensures Valid() && ok == (|e| <= M - old(T))
      ensures Contents() == old(Contents()) + (if ok then e else [])
      ensures T == old(T) + if ok then |e| else 0
      ensures sink[..old(T)] == old(sink[..T])
    {
      if M - T < |e| { return false; }
      ghost var was := sink[..T];
      forall i | 0 <= i < |e| { sink[T + i] := e[i]; }
      assert sink[..T] == was;
      assert sink[T..T + |e|] == e;
      T := T + |e|;
      ok := true;
    }

    method Reverse(es: nat) returns (ok: bool, e: Bytes)
      requires Valid()
      modifies this`H
      ensures Valid() && ok == (es <= |old(Contents())|)
      ensures if ok then e == old(Contents())[..es] && Contents() == old(Contents())[es..]
              else Contents() == old(Contents())
    {
      if es > T - H { return false, []; }
      e := sink[H..H + es];
      H := H + es;
      ok := true;
    }

    /** `move` */
    method Move(size: nat) returns (ok: bool)
      requires Valid()
      modifies this`H
      ensures Valid() && ok == (size <= |old(Contents())|)
      ensures Contents() == if ok then old(Contents())[size..] else old(Contents())
    {
      if T - H >= size {
        H := H + size;
        return true;
      }
      ok := false;
    }

    method Reset()
      requires Valid()
      modifies this
      ensures Valid() && Contents() == [] && T == 0
    {
      H, T := 0, 0;
    }

    // ----- Writing -----

    method PutVar(n: nat) returns (ok: bool)
      requires Valid() && n < WORD
      modifies this`T, sink
      ensures Len(n) < 256 && Valid() && Wrote(old(Contents()), old(T), Contents(), T, M, EncVar(n), ok)
    {
      VarFits(n);
      var vi := new VarInt(n);
      var sz := vi.Length();
      ok := Forward([sz]);
      if !ok { return; }
      var tmp := vi.Read();
      ok := Forward(Le(sz, tmp));
    }

    method PutBytes(b: Bytes) returns (ok: bool)
      requires Valid() && |b| < WORD
      modifies this`T, sink
      ensures Len(|b|) < 256 && Valid() && Wrote(old(Contents()), old(T), Contents(), T, M, EncVar(|b|) + b, ok)
    {
      hide EncVar;
      ok := PutVar(|b|);
      if !ok { return; }
      ok := Forward(b);
    }

    /** `operator<<` for every type of value. */
    method Write(ty: Type, always: bool, v: Value) returns (ok: bool)
      requires Valid() && Typed(ty, v)
      modifies this`T, sink
      ensures Valid() && Wrote(old(Contents()), old(T), Contents(), T, M, Enc(ty, always, v), ok)
      decreases ty, 0
    {
      match ty
      case Scalar(w) => ok := Forward(Le(w, v.n));
      case Var => ok := PutVar(v.n);
      case Text => ok := PutBytes(v.bytes);
      case Blob(size) => ok := PutBytes(v.bytes);
      case Vector(elem) => ok := WriteVector(elem, always, v.items);
      case Record(meta, fields) => ok := WriteFields(fields, meta, always, v.items);
    }

    method WriteVector(elem: Type, always: bool, vs: seq<Value>) returns (ok: bool)
      requires Valid() && |vs| <= INT_MAX && forall i :: 0 <= i < |vs| ==> Typed(elem, vs[i])
      modifies this`T, sink
      ensures Len(|vs|) < 256 && Valid()
      ensures Wrote(old(Contents()), old(T), Contents(), T, M, EncVar(|vs|) + EncItems(elem, always, vs), ok)
      decreases elem, 1
    {
      hide EncVar, Enc, EncItems, Typed, Wrote, Len, Contents, Valid;
      VarFits(|vs|);
      ghost var c0, t0, all := Contents(), T, EncVar(|vs|) + EncItems(elem, always, vs);
      ok := PutVar(|vs|);
      if !ok {
        Cut(c0, t0, Contents(), T, M, EncVar(|vs|), EncItems(elem, always, vs));
        return;
      }
      ghost var done := EncVar(|vs|);
      var i := 0;
      assert vs[0..] == vs;
      while i < |vs|
        invariant Valid() && i <= |vs| && ok && Wrote(c0, t0, Contents(), T, M, done, true)
        invariant done + EncItems(elem, always, vs[i..]) == all
      {
        ghost var e, tail := Enc(elem, always, vs[i]), EncItems(elem, always, vs[i + 1..]);
        ItemsFrom(elem, always, vs, i);
        assert done + (e + tail) == done + e + tail;
        ghost var c, t := Contents(), T;
        ok := Write(elem, always, vs[i]);
        Chain(c0, t0, c, t, Contents(), T, M, done, e, ok);
        if !ok {
          Cut(c0, t0, Contents(), T, M, done + e, tail);
          return;
        }
        done := done + e;
        i := i + 1;
      }
      NoItems(elem, always);
      assert vs[i..] == [] && done + [] == done;
    }

    method WriteFields(fields: Fields, meta: bool, always: bool, vs: seq<Value>) returns (ok: bool)
      requires Valid() && TypedFields(fields, vs)
      modifies this`T, sink
      ensures Valid() && Wrote(old(Contents()), old(T), Contents(), T, M, EncFields(fields, meta, always, vs), ok)
      decreases fields, 0
    {
      hide Enc, Typed;
      match fields
      case End => ok := true;
      case Field(unwire, ty, more) =>
        ghost var e := if Sent(unwire, meta, always) then Enc(ty, always, vs[0]) else [];
        ghost var tail := EncFields(more, meta, always, vs[1..]);
        ok := true;
        var sent := !unwire || (if meta then !always else always);
        if sent {
          ok := Write(ty, always, vs[0]);
        }
        if !ok {
          Cut(old(Contents()), old(T), Contents(), T, M, e, tail);
          return;
        }
        ghost var c, t := Contents(), T;
        ok := WriteFields(more, meta, always, vs[1..]);
        Chain(old(Contents()), old(T), c, t, Contents(), T, M, e, tail, ok);
    }

    // ----- Reading -----

    method PullVar() returns (st: Status, n: nat)
      requires Valid()
      modifies this`H
      ensures Valid() && Agrees(DecVar(old(Contents())), st, n, Contents())
    {
      var ok, b;
      n := 0;
      ok, b := Reverse(1);
      if !ok { return Throws, n; }
      var sz := b[0];
      ok, b := Reverse(sz);
      if !ok { return Throws, n; }
      if sz > 8 { return Undef, n; }
      assert b == old(Contents())[1..1 + sz];
      return Ok, LeNum(b);
    }

    /** `operator>>` for every type of variable; `t` is what it holds before. */
    method Read(ty: Type, always: bool, t: Value) returns (st: Status, v: Value)
      requires Valid() && Target(ty, t)
      modifies this`H
      ensures Valid() && Agrees(Dec(ty, always, t, old(Contents())), st, v, Contents())
      decreases ty, 0
    {
      hide DecVar, DecItems, DecFields;
      v := t;
      match ty
      case Scalar(w) =>
        var ok, b := Reverse(w);
        if !ok { return Throws, t; }
        return Ok, Num(LeNum(b));
      case Var =>
        var n;
        st, n := PullVar();
        v := Num(n);
      case Text =>
        st, v := ReadText(t, always);
      case Blob(size) =>
        st, v := ReadBlob(size, t, always);
      case Vector(elem) =>
        st, v := ReadVector(elem, always, t);
      case Record(meta, fields) =>
        var vs;
        st, vs := ReadFields(fields, meta, always, t.items);
        v := List(vs);
    }

    method ReadText(t: Value, ghost always: bool) returns (st: Status, v: Value)
      requires Valid() && t.Str?
      modifies this`H
      ensures Valid() && Agrees(Dec(Text, always, t, old(Contents())), st, v, Contents())
    {
      hide DecVar;
      var sz;
      v := t;
      st, sz := PullVar();
      if st != Ok { return; }
      ghost var rest := Contents();
      if sz > 0 {
        var ok, b := Reverse(sz);
        if !ok { return Throws, t; }
        var size := sz % 0x1_0000_0000; // the size of a byte string is kept in 32 bits
        assert b[..size] == rest[..size];
        v := Str(b[..size]);
      }
    }

    method ReadBlob(size: BlobSize, t: Value, ghost always: bool) returns (st: Status, v: Value)
      requires Valid() && Target(Blob(size), t)
      modifies this`H
      ensures Valid() && Agrees(Dec(Blob(size), always, t, old(Contents())), st, v, Contents())
    {
      hide DecVar;
      var sz;
      v := t;
      st, sz := PullVar();
      if st != Ok { return; }
      if sz > 0 {
        var ok, b := Reverse(sz);
        if !ok || sz > size { return Throws, t; }
        v := Str(b + t.bytes[sz..]);
      }
    }

    method ReadVector(elem: Type, always: bool, t: Value) returns (st: Status, v: Value)
      requires Valid() && t.List?
      modifies this`H
      ensures Valid() && Agrees(Dec(Vector(elem), always, t, old(Contents())), st, v, Contents())
      decreases elem, 2
    {
      hide DecVar, DecItems;
      var entries;
      v := t;
      st, entries := PullVar();
      if st != Ok { return; }
      st, v := ReadEntries(elem, always, t.items, entries);
    }

    /** The loop over the entries; its counter is an `int`. */
    method ReadEntries(elem: Type, always: bool, ts: seq<Value>, entries: nat) returns (st: Status, v: Value)
      requires Valid()
      modifies this`H
      ensures Valid()
      ensures entries <= INT_MAX ==> Agrees(DecItems(elem, always, ts, entries, old(Contents())), st, v, Contents())
      ensures entries > INT_MAX ==>
                st == if DecItems(elem, always, ts, INT_MAX + 1, old(Contents())).Thrown? then Throws else Undef
      decreases elem, 1
    {
      hide Dec, Contents, Valid;
      FreshIsTarget(elem);
      ghost var all := if entries <= INT_MAX then entries else INT_MAX + 1;
      ghost var r := DecItems(elem, always, ts, all, Contents());
      var vs := ts;
      var i := 0;
      st := Ok;
      while i < entries
        invariant Valid() && i <= all && i <= INT_MAX && st == Ok
        invariant DecItems(elem, always, vs, all - i, Contents()) == r
      {
        var entry;
        st, entry := Read(elem, always, Fresh(elem));
        v := entry;
        if st != Ok { return; }
        vs := vs + [entry];
        if i == 0x7FFF_FFFF { return Undef, v; }
        i := i + 1;
      }
      v := List(vs);
    }

    method ReadFields(fields: Fields, meta: bool, always: bool, ts: seq<Value>) returns (st: Status, vs: seq<Value>)
      requires Valid() && TargetFields(fields, ts)
      modifies this`H
      ensures Valid() && Agrees(DecFields(fields, meta, always, ts, old(Contents())), st, vs, Contents())
      decreases fields, 0
    {
      hide Dec;
      match fields
      case End => return Ok, [];
      case Field(unwire, ty, more) =>
        var v := ts[0];
        st, vs := Ok, ts;
        var sent := !unwire || (if meta then !always else always);
        if sent {
          st, v := Read(ty, always, ts[0]);
          if st != Ok { return; }
        }
        st, vs := ReadFields(more, meta, always, ts[1..]);
        vs := [v] + vs;
    }
  }

  /** A read from the board ends as the read from its contents does, with the same value and the same bytes left. */
  ghost predicate Agrees<V>(r: Outcome<V>, st: Status, v: V, c: Bytes) {
    match r
    case Done(w, rest) => st == Ok && v == w && c == rest
    case Thrown => st == Throws
    case Undefined => st == Undef
  }

  /**
   What writing the bytes `e` does to a board of `M` bytes: it succeeds exactly when they fit behind
   the tail; when it throws, only some of them have been written.
   */
  predicate Wrote(c0: Bytes, t0: nat, c1: Bytes, t1: nat, M: nat, e: Bytes, ok: bool) {
    && ok == (t0 + |e| <= M)
    && (ok ==> c1 == c0 + e && t1 == t0 + |e|)
    && (!ok ==> c0 <= c1 && c1 <= c0 + e)
  }

  lemma Chain(c0: Bytes, t0: nat, c1: Bytes, t1: nat, c2: Bytes, t2: nat, M: nat, a: Bytes, b: Bytes, ok: bool)
    requires Wrote(c0, t0, c1, t1, M, a, true) && Wrote(c1, t1, c2, t2, M, b, ok)
    ensures Wrote(c0, t0, c2, t2, M, a + b, ok)
  {
    assert c0 + a + b == c0 + (a + b);
  }

  lemma Cut(c0: Bytes, t0: nat, c1: Bytes, t1: nat, M: nat, a: Bytes, b: Bytes)
    requires Wrote(c0, t0, c1, t1, M, a, false)
    ensures Wrote(c0, t0, c1, t1, M, a + b, false)
  {
    assert c0 + (a + b) == c0 + a + b;
  }

  lemma ItemsFrom(elem: Type, always: bool, vs: seq<Value>, i: nat)
    requires i < |vs| && forall j :: 0 <= j < |vs| ==> Typed(elem, vs[j])
    ensures EncItems(elem, always, vs[i..]) == Enc(elem, always, vs[i]) + EncItems(elem, always, vs[i + 1..])
  {
    assert vs[i..][1..] == vs[i + 1..];
  }

  lemma NoItems(elem: Type, always: bool)
    ensures EncItems(elem, always, []) == []
  {
  }
}
