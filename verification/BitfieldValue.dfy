/** The bitfield macros in arithmetic: the numbers that reads return, that writes leave in
    memory, and that the mask stands for. */
module BitfieldValue {
  import opened Words
  import opened Bitfield

  /** A word as a number of the field's signedness. */
  function Meaning(f: Field, x: Word): int {
    if f.signed then SignedValue(x) else Value(x)
  }

  /** A number below 2^width, in two's complement if the field is signed. */
  function Signed(f: Field, r: nat): int
    requires f.Shifts()
  {
    if f.signed && r >= Pow2(f.Width() - 1) then r - Pow2(f.Width()) else r
  }

  lemma NormalizeUnsigned(f: Field, v: Word)
    requires f.Shifts() && !f.signed
    ensures Value(Normalize(f, v)) == Value(v[..f.Width()])
  {
    var x, n := v[..f.Width()], 64 - f.Width();
    assert Normalize(f, v) == x + Zeros(n);
    ValueAppendZeros(x, n);
  }

  /** The value a field can hold of v is v modulo 2^width, in two's complement if signed. */
  lemma NormalizeValue(f: Field, v: Word)
    requires f.Shifts()
    ensures Meaning(f, Normalize(f, v)) == Signed(f, Value(v) % Pow2(f.Width()))
  {
    ValueSplit(v, f.Width());
    if f.signed {
      SignExtension(v[..f.Width()], 64 - f.Width());
      TopBit(v[..f.Width()]);
    } else {
      NormalizeUnsigned(f, v);
    }
  }

  /** Extracting a field is shifting it down and cutting it to its width. */
  lemma ExtractNormalizes(val: Word, f: Field)
    requires f.Shifts()
    ensures Extract(val, f) == Normalize(f, Shr(val, f.Pad()))
  {
    var x, y := Extract(val, f), Normalize(f, Shr(val, f.Pad()));
    forall i | 0 <= i < 64
      ensures x[i] == y[i]
    {
      ExtractBit(val, f, i);
    }
  }

  lemma UnitValue(order: Order, m: seq<Octet>, f: Field)
    requires f.Sized() && f.offset + f.size <= |m|
    ensures Value(Unit(order, m, f)) == BytesValue(order, m, f.offset, f.size)
  {
    LoadValue(order, m, f.offset, f.size);
    ValueWiden(Load(order, m, f.offset, f.size), 64);
  }

  /** What a read returns: of the number the unit's bytes spell, the quotient by 2^pad modulo
      2^width, in two's complement if the field is signed. */
  lemma ReadValue(order: Order, m: seq<Octet>, f: Field)
    requires f.Sized() && f.Shifts() && f.offset + f.size <= |m|
    ensures Meaning(f, ReadField(order, m, f))
         == Signed(f, BytesValue(order, m, f.offset, f.size) / Pow2(f.Pad()) % Pow2(f.Width()))
  {
    var val := Unit(order, m, f);
    ExtractNormalizes(val, f);
    NormalizeValue(f, Shr(val, f.Pad()));
    ValueShr(val, f.Pad());
    UnitValue(order, m, f);
  }

  /** What was written is what is read, as a number: the value modulo 2^width, in two's
      complement if the field is signed. */
  lemma WriteThenReadValue(order: Order, m: seq<Octet>, f: Field, v: Word)
    requires f.WellFormed() && f.offset + f.size <= |m|
    ensures Meaning(f, ReadField(order, WriteField(order, m, f, v), f)) == Signed(f, Value(v) % Pow2(f.Width()))
  {
    ReadAfterWrite(order, m, f, v);
    NormalizeValue(f, v);
  }

  lemma OnesTimes(a: nat, b: nat)
    requires 0 < b <= a
    ensures ((a - 1) * b) % a == a - b
  {
    TimesDifference(b, a, 1);
    TimesDifference(a, b, 1);
    DivModUnique((a - 1) * b, a, b - 1, a - b);
  }

  /** Ones shifted out to the left and moved back leave n - r ones at position r - l. */
  lemma OnesMoved(n: nat, r: nat, l: nat)
    requires l <= r <= n
    ensures Value(Shr(Shl(Not(Zeros(n)), r), l)) == Pow2(r - l) * (Pow2(n - r) - 1)
  {
    ValueOnes(n);
    ValueShl(Not(Zeros(n)), r);
    PowMonotone(r, n);
    OnesTimes(Pow2(n), Pow2(r));
    ValueShr(Shl(Not(Zeros(n)), r), l);
    OnesBack(n - r, r - l, l);
  }

  lemma OnesBack(w: nat, pad: nat, l: nat)
    ensures Pow2(pad + l) <= Pow2(w + pad + l)
    ensures (Pow2(w + pad + l) - Pow2(pad + l)) / Pow2(l) == Pow2(pad) * (Pow2(w) - 1)
  {
    PowMonotone(pad + l, w + pad + l);
    PowAdd(w, pad);
    PowAdd(w + pad, l);
    PowAdd(pad, l);
    DivideOut(Pow2(w), Pow2(pad), Pow2(l));
  }

  lemma DivideOut(w: nat, p: nat, l: nat)
    requires w > 0 && l > 0
    ensures (w * p * l - p * l) / l == p * (w - 1)
  {
    var wp := w * p;
    TimesDifference(p, w, 1);
    TimesDifference(l, wp, p);
    ExactQuotient(wp * l - p * l, l, p * (w - 1));
  }

  lemma ExactQuotient(a: int, l: nat, q: nat)
    requires l > 0 && a == l * q
    ensures a / l == q
  {
    DivModUnique(l * q, l, q, 0);
  }

  /** The mask is width ones, moved up by pad. */
  lemma MaskValue(f: Field)
    requires f.Shifts()
    ensures Value(Mask(f)) == Pow2(f.Pad()) * (Pow2(f.Width()) - 1)
  {
    OnesMoved(64, f.rshift, f.lshift);
  }

  /** What is stored into the unit: the old bits below and above the field, the value's low
      bits between them. */
  lemma NewUnitParts(order: Order, m: seq<Octet>, f: Field, v: Word)
    requires f.WellFormed() && f.offset + f.size <= |m|
    ensures f.Pad() + f.Width() <= 8 * f.size
    ensures var old_, p, q := Load(order, m, f.offset, f.size), f.Pad(), f.Pad() + f.Width();
            NewUnit(order, m, f, v) == old_[..p] + v[..f.Width()] + old_[q..]
  {
    var x, p, q := Load(order, m, f.offset, f.size), f.Pad(), f.Pad() + f.Width();
    var y, z := NewUnit(order, m, f, v), x[..p] + v[..f.Width()] + x[q..];
    forall i | 0 <= i < 8 * f.size
      ensures y[i] == z[i]
    {
      MergeBit(Unit(order, m, f), v, f, i);
    }
  }

  /** Loading the unit that was stored. */
  lemma LoadWritten(order: Order, m: seq<Octet>, at: nat, x: Bits, n: nat)
    requires at + n <= |m| && |x| == 8 * n
    ensures Load(order, WriteBytes(m, at, Store(order, x, n)), at, n) == x
  {
    var w := WriteBytes(m, at, Store(order, x, n));
    var y := Load(order, w, at, n);
    forall i | 0 <= i < 8 * n
      ensures y[i] == x[i]
    {
      LoadedBit(order, w, at, n, i);
      StoredPlace(order, m, at, x, n, i);
    }
  }

  /** What a write leaves in the unit: the number it spelled, with the field's part taken out
      at its place and the value modulo 2^width put in. */
  lemma WriteValue(order: Order, m: seq<Octet>, f: Field, v: Word)
    requires f.WellFormed() && f.offset + f.size <= |m|
    ensures var before := BytesValue(order, m, f.offset, f.size);
            BytesValue(order, WriteField(order, m, f, v), f.offset, f.size)
            == before - Pow2(f.Pad()) * (before / Pow2(f.Pad()) % Pow2(f.Width()))
               + Pow2(f.Pad()) * (Value(v) % Pow2(f.Width()))
  {
    var x, p, q := Load(order, m, f.offset, f.size), f.Pad(), f.Pad() + f.Width();
    LoadWritten(order, m, f.offset, NewUnit(order, m, f, v), f.size);
    LoadValue(order, WriteField(order, m, f, v), f.offset, f.size);
    LoadValue(order, m, f.offset, f.size);
    NewUnitParts(order, m, f, v);
    var a, b, c, d := x[..p], x[p..q], x[q..], v[..f.Width()];
    assert x == a + b + c;
    ValueReplace(a, b, c, d);
    ValueMiddle(a, b, c);
    ValueSplit(v, f.Width());
  }
}
