/** The relocatable bitfield macros: the two readers, the writer, and what single calls do to
    the bits of an object and to the numbers its fields hold. */
module Bitfield {
  import opened Words

  /** The relocation numbers of a bitfield: where its storage unit lies, how many bytes that
      has, the two 64-bit shifts and the signedness. */
  datatype Field = Field(offset: nat, size: nat, lshift: nat, rshift: nat, signed: bool)
  {
    predicate Sized() {
      size == 1 || size == 2 || size == 4 || size == 8
    }

    predicate Shifts() {
      lshift <= rshift <= 63
    }

    /** The field lies inside its storage unit. */
    predicate Fits() {
      64 <= lshift + 8 * size
    }

    predicate WellFormed() {
      Sized() && Shifts() && Fits()
    }

    function Width(): nat
      requires Shifts()
    {
      64 - rshift
    }

    function Pad(): nat
      requires Shifts()
    {
      rshift - lshift
    }
  }

  // ---------- What the macros compute ----------

  /** The shift pair that both readers end with. */
  function Extract(val: Word, f: Field): Word {
    var up := Shl(val, f.lshift);
    if f.signed then Sar(up, f.rshift) else Shr(up, f.rshift)
  }

  /** The storage unit loaded by a switch on its size; 0 for any other size. */
  function Unit(order: Order, m: seq<Octet>, f: Field): Word
    requires f.offset + f.size <= |m|
  {
    if f.Sized() then Convert(Load(order, m, f.offset, f.size), 64) else Zeros(64)
  }

  function ReadField(order: Order, m: seq<Octet>, f: Field): Word
    requires f.offset + f.size <= |m|
  {
    Extract(Unit(order, m, f), f)
  }

  /** Memory with the bytes b written at at. */
  function WriteBytes(m: seq<Octet>, at: nat, b: seq<Octet>): (r: seq<Octet>)
    requires at + |b| <= |m|
    ensures |r| == |m|
  {
    seq(|m|, k requires 0 <= k < |m| => if at <= k < at + |b| then b[k - at] else m[k])
  }

  /** The bytes of a zeroed 64-bit variable after the unit's n bytes were copied into it: to its
      front on a little endian machine, to its end on a big endian one. */
  function ProbedBytes(order: Order, m: seq<Octet>, at: nat, n: nat): (r: seq<Octet>)
    requires n <= 8 && at + n <= |m|
    ensures |r| == 8
  {
    var front, zero: Octet := if order.Little? then 0 else 8 - n, Zeros(8);
    seq(8, k requires 0 <= k < 8 => if front <= k < front + n then m[at + (k - front)] else zero)
  }

  function ProbedField(order: Order, m: seq<Octet>, f: Field): Word
    requires f.offset + f.size <= |m| && f.size <= 8
  {
    Extract(Load(order, ProbedBytes(order, m, f.offset, f.size), 0, WORD_BYTES), f)
  }

  /** What the probed macro returns: the field, or 0 after a failed probe. */
  function ProbedResult(order: Order, m: seq<Octet>, f: Field, ok: bool): Word
    requires f.offset + f.size <= |m| && f.size <= 8
  {
    if ok then ProbedField(order, m, f) else Zeros(64)
  }

  function Mask(f: Field): Word {
    Shr(Shl(Not(Zeros(64)), f.rshift), f.lshift)
  }

  function Merge(val: Word, nval: Word, f: Field): Word
    requires f.Shifts()
  {
    Or(And(val, Not(Mask(f))), And(Shl(nval, f.Pad()), Mask(f)))
  }

  /** What is stored into the unit: the merged word, cut to the unit's type. */
  function NewUnit(order: Order, m: seq<Octet>, f: Field, nval: Word): (r: Bits)
    requires f.Shifts() && f.offset + f.size <= |m|
    ensures |r| == 8 * f.size
  {
    Convert(Merge(Unit(order, m, f), nval, f), 8 * f.size)
  }

  /** Memory after a write; a size that no case of the switch names stores nothing. */
  function WriteField(order: Order, m: seq<Octet>, f: Field, nval: Word): (r: seq<Octet>)
    requires f.Shifts() && f.offset + f.size <= |m|
    ensures |r| == |m|
  {
    if f.Sized() then
      WriteBytes(m, f.offset, Store(order, NewUnit(order, m, f, nval), f.size))
    else
      m
  }

  // ---------- The macros on an object in memory ----------

  /** bpf_probe_read_kernel(dst + at, n, mem + from): if the source is readable 0 and the bytes
      copied, else a negative error and the destination zeroed. */
  method ProbeRead(dst: array<Octet>, at: nat, n: nat, mem: array<Octet>, from: nat, readable: bool)
    returns (err: int)
    requires at + n <= dst.Length && from + n <= mem.Length && dst != mem
    modifies dst
    ensures err <= 0 && (err == 0 <==> readable)
    ensures forall k :: 0 <= k < dst.Length ==>
              dst[k] == if at <= k < at + n then (if readable then mem[from + (k - at)] else Zeros(8))
                        else old(dst[k])
  {
    if !readable {
      forall k | 0 <= k < n {
        dst[at + k] := Zeros(8);
      }
      return -1;
    }
    forall k | 0 <= k < n {
      dst[at + k] := mem[from + k];
    }
    return 0;
  }

  /** The steps both readers end with. */
  method ShiftOut(loaded: Word, f: Field) returns (val: Word)
    ensures val == Extract(loaded, f)
  {
    val := Shl(loaded, f.lshift);
    if f.signed {
      val := Sar(val, f.rshift);
    } else {
      val := Shr(val, f.rshift);
    }
  }

  /** The probed read. The helper's result is dropped, as in the macro: the value is the field
      if the object can be read, and 0 if it cannot. */
  method ReadBitfieldProbed(order: Order, mem: array<Octet>, f: Field, readable: bool) returns (val: Word)
    requires f.size <= 8 && f.offset + f.size <= mem.Length
    ensures val == ProbedResult(order, mem[..], f, readable)
    ensures !readable ==> val == Zeros(64)
    ensures readable ==> val == Extract(Convert(Load(order, mem[..], f.offset, f.size), 64), f)
    ensures readable && f.size in {1, 2, 4, 8} ==> val == ReadField(order, mem[..], f)
  {
    val := ProbeUnit(order, mem, f, readable);
    val := ShiftOut(val, f);
    ProbedUnit(order, mem[..], f.offset, f.size);
    ExtractZero(f);
  }

  /** unsigned long long val = 0, and the copy into its bytes. */
  method ProbeUnit(order: Order, mem: array<Octet>, f: Field, readable: bool) returns (val: Word)
    requires f.size <= 8 && f.offset + f.size <= mem.Length
    ensures val == if readable then Load(order, ProbedBytes(order, mem[..], f.offset, f.size), 0, WORD_BYTES)
                   else Zeros(64)
  {
    var bytes := new Octet[8](_ => Zeros(8));
    var at := if order.Little? then 0 else 8 - f.size;
    var _ := ProbeRead(bytes, at, f.size, mem, f.offset, readable);
    if readable {
      ProbedCopy(order, mem[..], f.offset, f.size, bytes[..]);
    } else {
      LoadZeros(order, bytes[..], 0, WORD_BYTES);
    }
    val := Load(order, bytes[..], 0, WORD_BYTES);
  }

  lemma ProbedCopy(order: Order, m: seq<Octet>, from: nat, n: nat, b: seq<Octet>)
    requires n <= 8 && from + n <= |m| && |b| == WORD_BYTES
    requires var at := if order.Little? then 0 else 8 - n;
             forall k :: 0 <= k < 8 ==> b[k] == if at <= k < at + n then m[from + (k - at)] else Zeros(8)
    ensures b == ProbedBytes(order, m, from, n)
  {}

  lemma LoadZeros(order: Order, m: seq<Octet>, at: nat, n: nat)
    requires at + n <= |m| && forall k :: at <= k < at + n ==> m[k] == Zeros(8)
    ensures Load(order, m, at, n) == Zeros(8 * n)
  {
    forall i | 0 <= i < 8 * n
      ensures !Load(order, m, at, n)[i]
    {
      LoadedBit(order, m, at, n, i);
    }
  }

  lemma ExtractZero(f: Field)
    ensures Extract(Zeros(64), f) == Zeros(64)
  {
    assert Shl(Zeros(64), f.lshift) == Zeros(64);
  }

  method LoadUnit(order: Order, mem: array<Octet>, p: nat, n: nat) returns (val: Word)
    requires p + n <= mem.Length
    ensures val == Convert(Load(order, mem[..], p, n), 64)
  {
    val := Convert(Load(order, mem[..], p, n), 64);
  }

  method ReadBitfield(order: Order, mem: array<Octet>, f: Field) returns (val: Word)
    requires f.offset + f.size <= mem.Length
    ensures val == ReadField(order, mem[..], f)
    ensures f.size !in {1, 2, 4, 8} ==> val == Zeros(64)
  {
    if f.size == 1 {
      val := LoadUnit(order, mem, f.offset, 1);
    } else if f.size == 2 {
      val := LoadUnit(order, mem, f.offset, 2);
    } else if f.size == 4 {
      val := LoadUnit(order, mem, f.offset, 4);
    } else if f.size == 8 {
      val := LoadUnit(order, mem, f.offset, 8);
    } else {
      val := Zeros(64);
    }
    assert val == Unit(order, mem[..], f);
    val := ShiftOut(val, f);
    ExtractZero(f);
  }

  method StoreUnit(order: Order, mem: array<Octet>, p: nat, n: nat, val: Word)
    requires p + n <= mem.Length
    modifies mem
    ensures mem[..] == WriteBytes(old(mem[..]), p, Store(order, Convert(val, 8 * n), n))
  {
    var bytes := Store(order, Convert(val, 8 * n), n);
    ghost var before := mem[..];
    forall k | 0 <= k < n {
      mem[p + k] := bytes[k];
    }
    OnlyWritten(before, mem[..], p, bytes);
  }

  lemma OnlyWritten(m: seq<Octet>, w: seq<Octet>, at: nat, b: seq<Octet>)
    requires |w| == |m| && at + |b| <= |m|
    requires forall k :: 0 <= k < |m| ==> w[k] == if at <= k < at + |b| then b[k - at] else m[k]
    ensures w == WriteBytes(m, at, b)
  {}

  /** The mask, and the new value's bits put in its place. */
  method MergeIn(loaded: Word, nval: Word, f: Field, rpad: nat) returns (val: Word)
    requires f.Shifts() && rpad == f.Pad()
    ensures val == Merge(loaded, nval, f)
  {
    var mask := Shr(Shl(Not(Zeros(64)), f.rshift), f.lshift);
    val := Or(And(loaded, Not(mask)), And(Shl(nval, rpad), mask));
  }

  method WriteBitfield(order: Order, mem: array<Octet>, f: Field, newVal: Word)
    requires f.Shifts() && f.offset + f.size <= mem.Length
    modifies mem
    ensures mem[..] == WriteField(order, old(mem[..]), f, newVal)
    ensures f.size !in {1, 2, 4, 8} ==> mem[..] == old(mem[..])
    ensures f.size in {1, 2, 4, 8} && 64 <= f.lshift + 8 * f.size ==>
              ReadField(order, mem[..], f) == Normalize(f, newVal)
    ensures f.WellFormed() ==>
              forall a: Place :: InMemory(old(mem[..]), a) && !InField(order, f, a) ==>
                MemBit(mem[..], a) == MemBit(old(mem[..]), a)
  {
    ghost var before := mem[..];
    var val: Word := Zeros(64);  // for any other size it is never used
    var nval := newVal;
    var rpad := f.rshift - f.lshift;
    if f.Sized() {
      val := LoadUnit(order, mem, f.offset, f.size);
    }
    val := MergeIn(val, nval, f, rpad);
    if f.Sized() {
      StoreUnit(order, mem, f.offset, f.size, val);
    }
    if f.WellFormed() {
      ReadAfterWrite(order, before, f, newVal);
      WriteBit(order, before, f, newVal);
    }
  }

  // ---------- Bits of memory ----------

  /** A bit of memory: its byte and its position in the byte. */
  datatype Place = Place(byte: nat, bit: nat)

  ghost predicate InMemory(m: seq<Octet>, a: Place) {
    a.byte < |m| && a.bit < 8
  }

  function MemBit(m: seq<Octet>, a: Place): bool
    requires a.byte < |m| && a.bit < 8
  {
    m[a.byte][a.bit]
  }

  lemma SameMemory(m: seq<Octet>, n: seq<Octet>)
    requires |m| == |n|
    requires forall a: Place :: InMemory(m, a) ==> MemBit(m, a) == MemBit(n, a)
    ensures m == n
  {
    forall k | 0 <= k < |m|
      ensures m[k] == n[k]
    {
      forall j | 0 <= j < 8
        ensures m[k][j] == n[k][j]
      {
        assert InMemory(m, Place(k, j)) && MemBit(m, Place(k, j)) == MemBit(n, Place(k, j));
      }
    }
  }

  /** Where bit p of the storage unit lies in memory. */
  function UnitPlace(order: Order, f: Field, p: nat): Place
    requires p < 8 * f.size
  {
    Place(f.offset + BytePosition(order, f.size, ByteOf(p)), BitOf(p))
  }

  /** Where bit j of the field lies in memory. */
  function FieldPlace(order: Order, f: Field, j: nat): Place
    requires f.WellFormed() && j < f.Width()
  {
    UnitPlace(order, f, f.Pad() + j)
  }

  ghost predicate InField(order: Order, f: Field, a: Place)
    requires f.WellFormed()
  {
    exists j: nat :: j < f.Width() && FieldPlace(order, f, j) == a
  }

  function FieldBit(order: Order, m: seq<Octet>, f: Field, j: nat): bool
    requires f.WellFormed() && j < f.Width() && f.offset + f.size <= |m|
  {
    MemBit(m, FieldPlace(order, f, j))
  }

  /** Bit p of a unit of n bytes, loaded and zero extended. */
  lemma WideBit(order: Order, m: seq<Octet>, at: nat, n: nat, p: nat)
    requires at + n <= |m| && p < 64
    ensures Convert(Load(order, m, at, n), 64)[p] ==
            (p < 8 * n && m[at + BytePosition(order, n, ByteOf(p))][BitOf(p)])
  {
    if p < 8 * n {
      LoadedBit(order, m, at, n, p);
    }
  }

  lemma UnitBit(order: Order, m: seq<Octet>, f: Field, p: nat)
    requires f.Sized() && f.offset + f.size <= |m| && p < 64
    ensures Unit(order, m, f)[p] == (p < 8 * f.size && MemBit(m, UnitPlace(order, f, p)))
  {
    WideBit(order, m, f.offset, f.size, p);
  }

  lemma MaskBit(f: Field, p: nat)
    requires f.Shifts() && p < 64
    ensures Mask(f)[p] == (f.Pad() <= p < f.Pad() + f.Width())
  {
    var high := Shl(Not(Zeros(64)), f.rshift);
    if p + f.lshift < 64 {
      assert high[p + f.lshift] == (f.rshift <= p + f.lshift);
    }
  }

  lemma MergeBit(val: Word, nval: Word, f: Field, p: nat)
    requires f.Shifts() && p < 64
    ensures Merge(val, nval, f)[p] ==
            if f.Pad() <= p < f.Pad() + f.Width() then nval[p - f.Pad()] else val[p]
  {
    MaskBit(f, p);
    var mask, moved := Mask(f), Shl(nval, f.Pad());
    assert And(val, Not(mask))[p] == (val[p] && !mask[p]);
    assert And(moved, mask)[p] == (moved[p] && mask[p]);
  }

  lemma ExtractBit(val: Word, f: Field, i: nat)
    requires f.Shifts() && i < 64
    ensures Extract(val, f)[i] ==
            if i < f.Width() then val[f.Pad() + i] else f.signed && val[f.Pad() + f.Width() - 1]
  {
    var up := Shl(val, f.lshift);
    var src := if i < f.Width() then i + f.rshift else 63;
    assert up[src] == val[src - f.lshift];
    if f.signed {
      assert Sar(up, f.rshift)[i] == up[src];
    } else {
      assert Shr(up, f.rshift)[i] == (i < f.Width() && up[src]);
    }
  }

  /** What a read returns, bit by bit: the field's bits in memory, then zeros or copies of
      the field's top bit. */
  lemma ReadBit(order: Order, m: seq<Octet>, f: Field, i: nat)
    requires f.WellFormed() && f.offset + f.size <= |m| && i < 64
    ensures ReadField(order, m, f)[i] ==
            if i < f.Width() then FieldBit(order, m, f, i)
            else f.signed && FieldBit(order, m, f, f.Width() - 1)
  {
    var val := Unit(order, m, f);
    var j := if i < f.Width() then i else f.Width() - 1;
    assert val[f.Pad() + j] == FieldBit(order, m, f, j) by {
      UnitBit(order, m, f, f.Pad() + j);
    }
    ExtractBit(val, f, i);
  }

  lemma NewUnitBit(order: Order, m: seq<Octet>, f: Field, v: Word, p: nat)
    requires f.Sized() && f.Shifts() && f.offset + f.size <= |m| && p < 8 * f.size
    ensures NewUnit(order, m, f, v)[p] ==
            if f.Pad() <= p < f.Pad() + f.Width() then v[p - f.Pad()] else MemBit(m, UnitPlace(order, f, p))
  {
    MergeBit(Unit(order, m, f), v, f, p);
    UnitBit(order, m, f, p);
  }

  lemma WrittenByte(m: seq<Octet>, at: nat, b: seq<Octet>, k: nat)
    requires at + |b| <= |m| && k < |b|
    ensures WriteBytes(m, at, b)[at + k] == b[k]
  {}

  lemma StoredPlace(order: Order, m: seq<Octet>, at: nat, x: Bits, n: nat, p: nat)
    requires at + n <= |m| && |x| == 8 * n && p < 8 * n
    ensures WriteBytes(m, at, Store(order, x, n))[at + BytePosition(order, n, ByteOf(p))][BitOf(p)] == x[p]
  {
    WrittenByte(m, at, Store(order, x, n), BytePosition(order, n, ByteOf(p)));
    StoredAt(order, x, n, p);
  }

  /** What a write does to one bit of the storage unit. */
  lemma WriteUnitBit(order: Order, m: seq<Octet>, f: Field, v: Word, p: nat)
    requires f.Sized() && f.Shifts() && f.offset + f.size <= |m| && p < 8 * f.size
    ensures MemBit(WriteField(order, m, f, v), UnitPlace(order, f, p)) ==
            if f.Pad() <= p < f.Pad() + f.Width() then v[p - f.Pad()] else MemBit(m, UnitPlace(order, f, p))
  {
    StoredPlace(order, m, f.offset, NewUnit(order, m, f, v), f.size, p);
    NewUnitBit(order, m, f, v, p);
  }

  lemma OwnBit(order: Order, m: seq<Octet>, f: Field, v: Word, j: nat)
    requires f.WellFormed() && f.offset + f.size <= |m| && j < f.Width()
    ensures FieldBit(order, WriteField(order, m, f, v), f, j) == v[j]
  {
    WriteUnitBit(order, m, f, v, f.Pad() + j);
  }

  /** The bit of the storage unit that lies at a place inside it. */
  lemma Locate(order: Order, f: Field, a: Place) returns (p: nat)
    requires f.offset <= a.byte < f.offset + f.size && a.bit < 8
    ensures p < 8 * f.size && UnitPlace(order, f, p) == a
  {
    p := 8 * BytePosition(order, f.size, a.byte - f.offset) + a.bit;
    assert ByteOf(p) == BytePosition(order, f.size, a.byte - f.offset) && BitOf(p) == a.bit;
  }

  lemma FieldRange(order: Order, f: Field, p: nat)
    requires f.WellFormed() && p < 8 * f.size
    ensures f.Pad() <= p < f.Pad() + f.Width() ==> InField(order, f, UnitPlace(order, f, p))
  {
    if f.Pad() <= p < f.Pad() + f.Width() {
      assert FieldPlace(order, f, p - f.Pad()) == UnitPlace(order, f, p);
    }
  }

  lemma OtherBit(order: Order, m: seq<Octet>, f: Field, v: Word, a: Place)
    requires f.WellFormed() && f.offset + f.size <= |m| && InMemory(m, a) && !InField(order, f, a)
    ensures MemBit(WriteField(order, m, f, v), a) == MemBit(m, a)
  {
    if f.offset <= a.byte < f.offset + f.size {
      var p := Locate(order, f, a);
      WriteUnitBit(order, m, f, v, p);
      FieldRange(order, f, p);
    } else {
      assert WriteField(order, m, f, v)[a.byte] == m[a.byte];
    }
  }

  /** What a write does to memory, bit by bit: the field's bits become the low bits of the
      new value and no other bit of memory changes. */
  lemma WriteBit(order: Order, m: seq<Octet>, f: Field, v: Word)
    requires f.WellFormed() && f.offset + f.size <= |m|
    ensures forall j: nat :: j < f.Width() ==>
              FieldBit(order, WriteField(order, m, f, v), f, j) == v[j]
    ensures forall a: Place :: InMemory(m, a) && !InField(order, f, a) ==>
              MemBit(WriteField(order, m, f, v), a) == MemBit(m, a)
  {
    forall j: nat | j < f.Width()
      ensures FieldBit(order, WriteField(order, m, f, v), f, j) == v[j]
    {
      OwnBit(order, m, f, v, j);
    }
    forall a: Place | InMemory(m, a) && !InField(order, f, a)
      ensures MemBit(WriteField(order, m, f, v), a) == MemBit(m, a)
    {
      OtherBit(order, m, f, v, a);
    }
  }

  // ---------- One write and one read ----------

  /** The value a field can hold of v: its low bits, zero or sign extended. */
  function Normalize(f: Field, v: Word): Word
    requires f.Shifts()
  {
    var w := f.Width();
    v[..w] + Fill(f.signed && v[w - 1], 64 - w)
  }

  lemma ReadAfterWrite(order: Order, m: seq<Octet>, f: Field, v: Word)
    requires f.WellFormed() && f.offset + f.size <= |m|
    ensures ReadField(order, WriteField(order, m, f, v), f) == Normalize(f, v)
  {
    var w := WriteField(order, m, f, v);
    WriteBit(order, m, f, v);
    forall i | 0 <= i < 64
      ensures ReadField(order, w, f)[i] == Normalize(f, v)[i]
    {
      ReadBit(order, w, f, i);
    }
  }

  /** Exactly when a read returns what was written, for every value: iff the field lies
      inside its storage unit. */
  lemma RoundTripExactly(order: Order, m: seq<Octet>, f: Field)
    requires f.size in {1, 2, 4, 8} && f.Shifts() && f.offset + f.size <= |m|
    ensures (forall v: Word :: ReadField(order, WriteField(order, m, f, v), f) == Normalize(f, v))
       <==> 64 <= f.lshift + 8 * f.size
  {
    if f.Fits() {
      forall v: Word
        ensures ReadField(order, WriteField(order, m, f, v), f) == Normalize(f, v)
      {
        ReadAfterWrite(order, m, f, v);
      }
    } else {
      var v: Word := Not(Zeros(64));
      var w := WriteField(order, m, f, v);
      var top := f.Width() - 1;
      ExtractBit(Unit(order, w, f), f, top);
      UnitBit(order, w, f, 63 - f.lshift);
      assert !ReadField(order, w, f)[top] && Normalize(f, v)[top];
    }
  }

  /** Writing back what was read changes nothing. */
  lemma WriteBack(order: Order, m: seq<Octet>, f: Field)
    requires f.WellFormed() && f.offset + f.size <= |m|
    ensures WriteField(order, m, f, ReadField(order, m, f)) == m
  {
    var v := ReadField(order, m, f);
    var w := WriteField(order, m, f, v);
    WriteBit(order, m, f, v);
    forall a: Place | InMemory(m, a)
      ensures MemBit(w, a) == MemBit(m, a)
    {
      if InField(order, f, a) {
        var j: nat :| j < f.Width() && FieldPlace(order, f, j) == a;
        ReadBit(order, m, f, j);
        assert FieldBit(order, w, f, j) == v[j];
      }
    }
    SameMemory(w, m);
  }

  /** The last of two writes to a field wins. */
  lemma LastWriteWins(order: Order, m: seq<Octet>, f: Field, u: Word, v: Word)
    requires f.WellFormed() && f.offset + f.size <= |m|
    ensures WriteField(order, WriteField(order, m, f, u), f, v) == WriteField(order, m, f, v)
  {
    var once, twice := WriteField(order, m, f, v), WriteField(order, WriteField(order, m, f, u), f, v);
    WriteBit(order, m, f, u);
    WriteBit(order, m, f, v);
    WriteBit(order, WriteField(order, m, f, u), f, v);
    forall a: Place | InMemory(m, a)
      ensures MemBit(twice, a) == MemBit(once, a)
    {
      if InField(order, f, a) {
        var j: nat :| j < f.Width() && FieldPlace(order, f, j) == a;
        assert FieldBit(order, twice, f, j) == v[j] == FieldBit(order, once, f, j);
      }
    }
    SameMemory(twice, once);
  }

  // ---------- The two readers ----------

  lemma ProbedByte(order: Order, m: seq<Octet>, at: nat, n: nat, k: nat)
    requires n <= 8 && at + n <= |m| && k < 8
    ensures ProbedBytes(order, m, at, n)[BytePosition(order, WORD_BYTES, k)]
         == if k < n then m[at + BytePosition(order, n, k)] else Zeros(8)
  {}

  lemma ProbedBit(order: Order, m: seq<Octet>, at: nat, n: nat, i: nat)
    requires n <= 8 && at + n <= |m| && i < 64
    ensures Load(order, ProbedBytes(order, m, at, n), 0, WORD_BYTES)[i]
         == (i < 8 * n && m[at + BytePosition(order, n, ByteOf(i))][BitOf(i)])
  {
    LoadedBit(order, ProbedBytes(order, m, at, n), 0, WORD_BYTES, i);
    ProbedByte(order, m, at, n, ByteOf(i));
  }

  /** The probed variable holds the storage unit, zero extended, on either byte order. */
  lemma ProbedUnit(order: Order, m: seq<Octet>, at: nat, n: nat)
    requires n <= 8 && at + n <= |m|
    ensures Load(order, ProbedBytes(order, m, at, n), 0, WORD_BYTES) == Convert(Load(order, m, at, n), 64)
  {
    var x, y := Load(order, ProbedBytes(order, m, at, n), 0, WORD_BYTES), Convert(Load(order, m, at, n), 64);
    forall i | 0 <= i < 64
      ensures x[i] == y[i]
    {
      ProbedBit(order, m, at, n, i);
      WideBit(order, m, at, n, i);
    }
  }

  /** The two readers agree on every memory and field whose unit has one of the four sizes. */
  lemma ReadersAgree(order: Order, m: seq<Octet>, f: Field)
    requires f.Sized() && f.offset + f.size <= |m|
    ensures ReadField(order, m, f) == ProbedField(order, m, f)
  {
    ProbedUnit(order, m, f.offset, f.size);
  }

  /** Exactly when the two readers agree on every memory of n bytes: iff the size is one of
      the four the direct reader switches on, or the field starts above its unit. */
  lemma ReadersAgreeExactly(order: Order, f: Field, n: nat)
    requires f.Shifts() && f.size <= 8 && f.offset + f.size <= n
    ensures (forall m: seq<Octet> :: |m| == n ==> ReadField(order, m, f) == ProbedField(order, m, f))
       <==> f.size in {1, 2, 4, 8} || 8 * f.size <= f.rshift - f.lshift
  {
    if f.Sized() || 8 * f.size <= f.Pad() {
      forall m: seq<Octet> | |m| == n
        ensures ReadField(order, m, f) == ProbedField(order, m, f)
      {
        if f.Sized() {
          ReadersAgree(order, m, f);
        } else {
          ReadersAgreeAbove(order, m, f);
        }
      }
    } else {
      var ones: Octet := Not(Zeros(8));
      var m: seq<Octet> := seq(n, _ => ones);
      ReadersDiffer(order, f, m);
    }
  }

  lemma ReadersAgreeAbove(order: Order, m: seq<Octet>, f: Field)
    requires f.Shifts() && f.size <= 8 && f.offset + f.size <= |m|
    requires !f.Sized() && 8 * f.size <= f.Pad()
    ensures ReadField(order, m, f) == ProbedField(order, m, f)
  {
    var probed: Word := Convert(Load(order, m, f.offset, f.size), 64);
    ProbedUnit(order, m, f.offset, f.size);
    var x, y := Extract(probed, f), Extract(Zeros(64), f);
    forall i | 0 <= i < 64
      ensures x[i] == y[i]
    {
      ExtractBit(probed, f, i);
      ExtractBit(Zeros(64), f, i);
    }
  }

  lemma ReadersDiffer(order: Order, f: Field, m: seq<Octet>)
    requires f.Shifts() && f.size <= 8 && f.offset + f.size <= |m| && !f.Sized() && f.Pad() < 8 * f.size
    requires forall k, j :: 0 <= k < |m| && 0 <= j < 8 ==> m[k][j]
    ensures ReadField(order, m, f) != ProbedField(order, m, f)
  {
    var probed: Word := Convert(Load(order, m, f.offset, f.size), 64);
    ProbedUnit(order, m, f.offset, f.size);
    WideBit(order, m, f.offset, f.size, f.Pad());
    ExtractsDiffer(probed, Zeros(64), f);
  }

  lemma ExtractsDiffer(val: Word, other: Word, f: Field)
    requires f.Shifts() && val[f.Pad()] != other[f.Pad()]
    ensures Extract(val, f) != Extract(other, f)
  {
    ExtractBit(val, f, 0);
    ExtractBit(other, f, 0);
  }

  // ---------- The documented result of the probed reader ----------

  /** Its comment promises the helper's result: 0 on success, a negative number on error. */
  predicate AsDocumented(ok: bool, val: Word) {
    if ok then val == Zeros(64) else SignedValue(val) < 0
  }

  lemma ZeroFieldExactly(order: Order, m: seq<Octet>, f: Field)
    requires f.WellFormed() && f.offset + f.size <= |m|
    ensures ProbedField(order, m, f) == Zeros(64)
       <==> forall j: nat :: j < f.Width() ==> !FieldBit(order, m, f, j)
  {
    ReadersAgree(order, m, f);
    var x := ReadField(order, m, f);
    forall i: nat | i < 64
      ensures x[i] == if i < f.Width() then FieldBit(order, m, f, i)
                      else f.signed && FieldBit(order, m, f, f.Width() - 1)
    {
      ReadBit(order, m, f, i);
    }
    if x == Zeros(64) {
      forall j: nat | j < f.Width()
        ensures !FieldBit(order, m, f, j)
      {
        assert !x[j];
      }
    } else {
      var i :| 0 <= i < 64 && x[i];
      assert i < f.Width() || FieldBit(order, m, f, f.Width() - 1);
    }
  }

  /** Exactly when the macro returns what its comment promises: iff the probe succeeds and
      every bit of the field is zero. After a failed probe it never does. */
  lemma DocumentedExactly(order: Order, m: seq<Octet>, f: Field, ok: bool)
    requires f.WellFormed() && f.offset + f.size <= |m|
    ensures AsDocumented(ok, ProbedResult(order, m, f, ok))
       <==> ok && forall j: nat :: j < f.Width() ==> !FieldBit(order, m, f, j)
  {
    ZeroFieldExactly(order, m, f);
    SignedZeros(64);
  }

  lemma LowestBit(order: Order, m: seq<Octet>, f: Field)
    requires |m| == 1 && f.offset == 0 && f.size == 1 && f.lshift == f.rshift == 63
    ensures f.WellFormed() && FieldBit(order, m, f, 0) == m[0][0]
  {}

  /** Where it does not: a byte with its lowest bit set, and that bit as the field. The probe
      succeeds and the macro does not return 0. */
  lemma DocumentedFails(order: Order, m: seq<Octet>, f: Field)
    requires |m| == 1 && f.offset == 0 && f.size == 1 && f.lshift == f.rshift == 63
    requires m[0][0]
    ensures !AsDocumented(true, ProbedResult(order, m, f, true))
  {
    LowestBit(order, m, f);
    DocumentedExactly(order, m, f, true);
  }

  /** No caller can tell a failed probe from a field of zeros. */
  lemma FailureLooksLikeZero(order: Order, m: seq<Octet>, f: Field)
    requires f.WellFormed() && f.offset + f.size <= |m|
    ensures ProbedResult(order, m, f, true) == ProbedResult(order, m, f, false)
       <==> forall j: nat :: j < f.Width() ==> !FieldBit(order, m, f, j)
  {
    ZeroFieldExactly(order, m, f);
  }
}
