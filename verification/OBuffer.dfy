/**
 The output buffer: an allocation that grows by at least its own size, in multiples of eight bytes,
 with one more byte for a terminator.
 */
module OBuffer {
  import opened Utf8

  const LIMIT: nat := 0x1_0000_0000

  function Max(a: nat, b: nat): nat { if a > b then a else b }

  /** `x + __ALIGN(x)` */
  function Aligned(x: nat): (y: nat)
    ensures x <= y < x + 8 && y % 8 == 0
  {
    x + if x % 8 == 0 then 0 else 8 - x % 8
  }

  // ----- The buffer as a value -----

  /** Capacity, contents, and how many bytes all reallocations have moved so far. */
  datatype Shape = Shape(size: nat, data: Bytes, moved: nat)

  datatype Op = Append(data: Bytes) | Reserve(n: nat)

  function Grown(s: Shape, need: nat): Shape {
    s.(size := s.size + Aligned(Max(s.size, need)), moved := s.moved + s.size)
  }

  /** What an operation needs beyond what is free. */
  function Missing(s: Shape, op: Op): nat
    requires |s.data| <= s.size
  {
    var free := s.size - |s.data|;
    match op
    case Append(data) => if |data| > free then |data| else 0
    case Reserve(n) => if n > free then n - free else 0
  }

  function Room(s: Shape, op: Op): Shape
    requires |s.data| <= s.size
  {
    if Missing(s, op) > 0 then Grown(s, Missing(s, op)) else s
  }

  function Apply(s: Shape, op: Op): (t: Shape)
    requires |s.data| <= s.size
    ensures |t.data| <= t.size
  {
    match op
    case Append(data) => Room(s, op).(data := s.data + data)
    case Reserve(_) => Room(s, op)
  }

  /** Below the limit of the 32-bit fields, terminator included. */
  predicate Fits(s: Shape, op: Op)
    requires |s.data| <= s.size
  {
    Room(s, op).size + 1 < LIMIT
  }

  function Run(ops: seq<Op>): (s: Shape)
    ensures |s.data| <= s.size
  {
    if ops == [] then Shape(0, [], 0) else Apply(Run(ops[..|ops| - 1]), ops[|ops| - 1])
  }

  function Appended(ops: seq<Op>): Bytes {
    if ops == [] then []
    else
      var last := ops[|ops| - 1];
      Appended(ops[..|ops| - 1]) + if last.Append? then last.data else []
  }

  lemma SumOfEights(a: nat, b: nat)
    requires a % 8 == 0 && b % 8 == 0
    ensures (a + b) % 8 == 0
  {
  }

  lemma RoomKeeps(s: Shape, op: Op)
    requires |s.data| <= s.size && s.size % 8 == 0 && s.moved <= s.size
    ensures var t := Room(s, op); t.data == s.data && t.size % 8 == 0 && t.moved <= t.size
  {
    hide Aligned, Missing;
    SumOfEights(s.size, Aligned(Max(s.size, Missing(s, op))));
  }

  /** Any operations from an empty buffer: nothing is lost, and reallocation has moved no more than the capacity. */
  lemma {:induction false} RunKeeps(ops: seq<Op>)
    ensures var s := Run(ops); s.data == Appended(ops) && s.size % 8 == 0 && s.moved <= s.size
  {
    if ops != [] {
      RunKeeps(ops[..|ops| - 1]);
      hide Run;
      RoomKeeps(Run(ops[..|ops| - 1]), ops[|ops| - 1]);
    }
  }

  /** Appending alone costs at most two moved bytes for every byte appended, and seven more. */
  lemma {:induction false} AppendsAreLinear(ops: seq<Op>)
    requires forall i :: 0 <= i < |ops| ==> ops[i].Append?
    ensures var s := Run(ops); s.moved <= s.size <= 2 * |Appended(ops)| + 7
  {
    RunKeeps(ops);
    if ops != [] {
      RunKeeps(ops[..|ops| - 1]);
      AppendsAreLinear(ops[..|ops| - 1]);
    }
  }

  // ----- Hexadecimal text -----

  function I2c(c: nat, caps: bool): byte
    requires c < 16
  {
    if c <= 9 then c + 0x30 else if caps then c + 0x37 else c + 0x57
  }

  /** The digit a character stands for; 16 where the source throws. */
  function C2i(c: byte): nat {
    if 0x30 <= c <= 0x39 then c - 0x30
    else if 0x61 <= c <= 0x66 then c - 0x57
    else if 0x41 <= c <= 0x46 then c - 0x37
    else 16
  }

  lemma HexDigits(v: nat, caps: bool)
    requires v < 16
    ensures var digits := if caps then "0123456789ABCDEF" else "0123456789abcdef";
            var c := digits[v] as int; I2c(v, caps) == c && C2i(c) == v
  {
  }

  /** Nothing else is a digit. */
  lemma OnlyHexDigits(c: byte)
    ensures C2i(c) <= 16
    ensures C2i(c) < 16 ==> c == "0123456789ABCDEF"[C2i(c)] as int || c == "0123456789abcdef"[C2i(c)] as int
  {
    if C2i(c) < 16 {
      HexDigits(C2i(c), true);
      HexDigits(C2i(c), false);
    }
  }

  function Hex(data: Bytes, caps: bool): (t: Bytes)
    ensures |t| == 2 * |data|
  {
    if data == [] then []
    else Hex(data[..|data| - 1], caps) + [I2c(data[|data| - 1] / 16, caps), I2c(data[|data| - 1] % 16, caps)]
  }

  function Unhex(t: Bytes): seq<nat> {
    if |t| < 2 then [] else Unhex(t[..|t| - 2]) + [C2i(t[|t| - 2]) * 16 + C2i(t[|t| - 1])]
  }

  lemma {:induction false} HexRoundTrip(data: Bytes, caps: bool)
    ensures Unhex(Hex(data, caps)) == data
  {
    if data != [] {
      var t := Hex(data, caps);
      HexRoundTrip(data[..|data| - 1], caps);
      assert t[..|t| - 2] == Hex(data[..|data| - 1], caps);
    }
  }

  // ----- The buffer as it is -----

  class Buffer {
    var m_data: array?<byte>
    var m_size: nat
    var m_offset: nat
    ghost var moved: nat

    ghost predicate Valid()
      reads this
    {
      && m_offset <= m_size && m_size % 8 == 0
      && (if m_data == null then m_size == 0 else m_data.Length >= m_size + 1)
    }

    ghost function Contents(): Bytes
      requires Valid()
      reads this, m_data
    {
      if m_data == null then [] else m_data[..m_offset]
    }

    ghost function Abs(): Shape
      requires Valid()
      reads this, m_data
    {
      Shape(m_size, Contents(), moved)
    }

    constructor (is_: nat)
      requires Aligned(is_) + 1 < LIMIT
      ensures Valid() && Contents() == [] && moved == 0 && m_size == Aligned(is_)
      ensures if is_ == 0 then m_data == null else fresh(m_data)
    {
      m_data, m_size, m_offset, moved := null, 0, 0, 0;
      new;
      if is_ != 0 { Grow(is_); }
    }

    /** `realloc` to `m_size + add + 1` bytes: what was allocated is copied. */
    method Grow(add: nat)
      requires Valid() && m_size + Aligned(add) + 1 < LIMIT && (m_data == null ==> m_offset == 0)
      modifies this`m_data, this`m_size, this`moved
      ensures Valid() && Abs() == Shape(old(m_size) + Aligned(add), old(Contents()), old(moved) + old(m_size))
      ensures m_data != null && fresh(m_data)
    {
      var a := Aligned(add);
      var q := new byte[m_size + a + 1](_ => 0);
      if m_data != null {
        var old_ := m_data;
        forall i | 0 <= i <= m_size { q[i] := old_[i]; }
        assert q[..m_offset] == old_[..m_offset];
      }
      moved := moved + m_size;
      m_data := q;
      m_size := m_size + a;
    }

    method Append(data: Bytes)
      requires Valid() && Fits(Abs(), Op.Append(data))
      modifies this, m_data
      ensures Valid() && Abs() == Apply(old(Abs()), Op.Append(data))
      ensures m_data == old(m_data) || fresh(m_data)
    {
      if m_size - m_offset < |data| {
        Grow(Max(m_size, |data|));
      }
      hide Aligned;
      PutAll(data);
    }

    /** `memcpy` to the offset, and on. */
    method PutAll(data: Bytes)
      requires Valid() && m_offset + |data| <= m_size
      modifies this`m_offset, m_data
      ensures Valid() && Contents() == old(Contents()) + data
    {
      if m_data != null {
        ghost var c := Contents();
        forall i | 0 <= i < |data| { m_data[m_offset + i] := data[i]; }
        assert m_data[..m_offset + |data|] == c + data;
      }
      m_offset := m_offset + |data|;
    }

    method Reserve(size: nat)
      requires Valid() && Fits(Abs(), Op.Reserve(size))
      modifies this`m_data, this`m_size, this`moved
      ensures Valid() && Abs() == Apply(old(Abs()), Op.Reserve(size))
      ensures m_data == old(m_data) || fresh(m_data)
      ensures Missing(old(Abs()), Op.Reserve(size)) == 0 ==> m_data == old(m_data)
    {
      var remaining := m_size - m_offset;
      if size > remaining {
        Grow(Max(m_size, size - remaining));
      }
    }

    /** The offset must lie inside the capacity, and not at its end. */
    method Bseek(off: int) returns (ok: bool)
      requires Valid()
      modifies this`m_offset
      ensures Valid() && ok == (0 <= off < m_size) && m_offset == if ok then off else old(m_offset)
    {
      if off < m_size && off >= 0 {
        m_offset := off;
        return true;
      }
      ok := false;
    }

    method Seek(off: int) returns (ok: bool)
      requires Valid()
      modifies this`m_offset
      ensures Valid() && ok == (0 <= old(m_offset) + off < m_size)
      ensures m_offset == if ok then old(m_offset) + off else old(m_offset)
    {
      ok := Bseek(m_offset + off);
    }

    /** `hex`: two digits for every byte. */
    method AppendHex(data: Bytes, caps: bool)
      requires Valid() && Fits(Abs(), Op.Reserve(2 * |data|))
      modifies this, m_data
      ensures Valid() && Abs() == Apply(old(Abs()), Op.Reserve(2 * |data|)).(data := old(Contents()) + Hex(data, caps))
      ensures m_data == old(m_data) || fresh(m_data)
    {
      RoomEnough(Abs(), 2 * |data|);
      hide Room, Missing;
      Reserve(2 * |data|);
      PutHex(data, caps);
    }

    method PutHex(data: Bytes, caps: bool)
      requires Valid() && m_offset + 2 * |data| <= m_size
      modifies this`m_offset, m_data
      ensures Valid() && Contents() == old(Contents()) + Hex(data, caps)
    {
      hide Contents;
      ghost var c := Contents();
      var i := 0;
      while i < |data|
        invariant Valid() && i <= |data| && m_offset == old(m_offset) + 2 * i
        invariant m_data == old(m_data) && m_size == old(m_size)
        invariant Contents() == c + Hex(data[..i], caps)
      {
        HexNext(data, i, caps);
        Put(I2c(data[i] / 16, caps));
        Put(I2c(data[i] % 16, caps));
        i := i + 1;
      }
      assert data[..i] == data;
    }

    /** `m_data[m_offset++] = c` */
    method Put(c: byte)
      requires Valid() && m_offset < m_size
      modifies this`m_offset, m_data
      ensures Valid() && Contents() == old(Contents()) + [c] && m_offset == old(m_offset) + 1
    {
      m_data[m_offset] := c;
      m_offset := m_offset + 1;
    }
  }

  lemma RoomEnough(s: Shape, n: nat)
    requires |s.data| <= s.size
    ensures |s.data| + n <= Apply(s, Op.Reserve(n)).size && Apply(s, Op.Reserve(n)).data == s.data
  {
  }

  lemma HexNext(data: Bytes, i: nat, caps: bool)
    requires i < |data|
    ensures Hex(data[..i + 1], caps) == Hex(data[..i], caps) + [I2c(data[i] / 16, caps)] + [I2c(data[i] % 16, caps)]
  {
    assert data[..i + 1][..i] == data[..i];
  }
}
