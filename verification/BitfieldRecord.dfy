/** Runs of bitfield writes to the fields of one object, against the record they implement:
    a map from fields to values. The fields may have storage units of different sizes that
    overlap; only their bits must be disjoint. */
module BitfieldRecord {
  import opened Words
  import opened Bitfield

  ghost predicate Disjoint(order: Order, f: Field, g: Field)
    requires f.WellFormed() && g.WellFormed()
  {
    forall i: nat, j: nat :: i < f.Width() && j < g.Width() ==>
      FieldPlace(order, f, i) != FieldPlace(order, g, j)
  }

  /** The fields of an object of n bytes: each inside the object, no two sharing a bit. */
  ghost predicate Layout(order: Order, fs: set<Field>, n: nat) {
    && (forall f :: f in fs ==> f.WellFormed() && f.offset + f.size <= n)
    && (forall f, g :: f in fs && g in fs && f != g ==> Disjoint(order, f, g))
  }

  lemma DisjointOutside(order: Order, f: Field, g: Field, j: nat)
    requires f.WellFormed() && g.WellFormed() && Disjoint(order, f, g) && j < g.Width()
    ensures !InField(order, f, FieldPlace(order, g, j))
  {}

  /** A write leaves every field it shares no bit with as it was. */
  lemma OtherFieldKept(order: Order, m: seq<Octet>, f: Field, v: Word, g: Field)
    requires f.WellFormed() && f.offset + f.size <= |m|
    requires g.WellFormed() && g.offset + g.size <= |m|
    requires Disjoint(order, f, g)
    ensures ReadField(order, WriteField(order, m, f, v), g) == ReadField(order, m, g)
  {
    var w := WriteField(order, m, f, v);
    forall j: nat | j < g.Width()
      ensures FieldBit(order, w, g, j) == FieldBit(order, m, g, j)
    {
      DisjointOutside(order, f, g, j);
      OtherBit(order, m, f, v, FieldPlace(order, g, j));
    }
    SameRead(order, m, w, g);
  }

  lemma SameRead(order: Order, m: seq<Octet>, w: seq<Octet>, g: Field)
    requires g.WellFormed() && g.offset + g.size <= |m| && g.offset + g.size <= |w|
    requires forall j: nat :: j < g.Width() ==> FieldBit(order, w, g, j) == FieldBit(order, m, g, j)
    ensures ReadField(order, w, g) == ReadField(order, m, g)
  {
    var x, y := ReadField(order, w, g), ReadField(order, m, g);
    forall i | 0 <= i < 64
      ensures x[i] == y[i]
    {
      ReadBit(order, w, g, i);
      ReadBit(order, m, g, i);
    }
  }

  /** Writes to disjoint fields can be exchanged. */
  lemma WritesCommute(order: Order, m: seq<Octet>, f: Field, u: Word, g: Field, v: Word)
    requires f.WellFormed() && f.offset + f.size <= |m|
    requires g.WellFormed() && g.offset + g.size <= |m|
    requires Disjoint(order, f, g)
    ensures WriteField(order, WriteField(order, m, f, u), g, v)
         == WriteField(order, WriteField(order, m, g, v), f, u)
  {
    var mf, mg := WriteField(order, m, f, u), WriteField(order, m, g, v);
    var a, b := WriteField(order, mf, g, v), WriteField(order, mg, f, u);
    forall p: Place | InMemory(m, p)
      ensures MemBit(a, p) == MemBit(b, p)
    {
      if InField(order, g, p) {
        var j: nat :| j < g.Width() && FieldPlace(order, g, j) == p;
        DisjointOutside(order, f, g, j);
        OwnBit(order, mf, g, v, j);
        OwnBit(order, m, g, v, j);
        OtherBit(order, mg, f, u, p);
      } else if InField(order, f, p) {
        var i: nat :| i < f.Width() && FieldPlace(order, f, i) == p;
        OwnBit(order, mg, f, u, i);
        OwnBit(order, m, f, u, i);
        OtherBit(order, mf, g, v, p);
      } else {
        OtherBit(order, mf, g, v, p);
        OtherBit(order, m, f, u, p);
        OtherBit(order, mg, f, u, p);
        OtherBit(order, m, g, v, p);
      }
    }
    SameMemory(a, b);
  }

  /** Exactly when the order of two writes never matters: iff the fields share no bit. */
  lemma WritesCommuteExactly(order: Order, m: seq<Octet>, f: Field, g: Field)
    requires f.WellFormed() && f.offset + f.size <= |m|
    requires g.WellFormed() && g.offset + g.size <= |m|
    ensures (forall u: Word, v: Word :: WriteField(order, WriteField(order, m, f, u), g, v)
                                     == WriteField(order, WriteField(order, m, g, v), f, u))
       <==> Disjoint(order, f, g)
  {
    if Disjoint(order, f, g) {
      forall u: Word, v: Word
        ensures WriteField(order, WriteField(order, m, f, u), g, v)
             == WriteField(order, WriteField(order, m, g, v), f, u)
      {
        WritesCommute(order, m, f, u, g, v);
      }
    } else {
      var i: nat, j: nat :| i < f.Width() && j < g.Width() && FieldPlace(order, f, i) == FieldPlace(order, g, j);
      var ones: Word, zeros: Word := Not(Zeros(64)), Zeros(64);
      OwnBit(order, WriteField(order, m, f, ones), g, zeros, j);
      OwnBit(order, WriteField(order, m, g, zeros), f, ones, i);
    }
  }

  // ---------- Runs of writes ----------

  /** A run of writes, the last one outermost. */
  datatype Writes = Start | Then(before: Writes, field: Field, value: Word)
  {
    /** Every write goes to one of the fields. */
    ghost predicate Within(fs: set<Field>) {
      this.Then? ==> field in fs && before.Within(fs)
    }

    ghost predicate Touches(f: Field) {
      this.Then? && (field == f || before.Touches(f))
    }

    /** The last value written to a field. */
    ghost function Last(f: Field): Word
      requires Touches(f)
    {
      if field == f then value else before.Last(f)
    }
  }

  ghost function RunWrites(order: Order, m: seq<Octet>, fs: set<Field>, ws: Writes): (r: seq<Octet>)
    requires Layout(order, fs, |m|) && ws.Within(fs)
    ensures |r| == |m|
  {
    match ws
    case Start => m
    case Then(before, f, v) => WriteField(order, RunWrites(order, m, fs, before), f, v)
  }

  /** The record an object holds: the value each of its fields reads as. */
  ghost function Record(order: Order, m: seq<Octet>, fs: set<Field>): map<Field, Word>
    requires Layout(order, fs, |m|)
  {
    map f | f in fs :: ReadField(order, m, f)
  }

  /** The same writes on the record: each replaces one entry by the value cut to the field. */
  ghost function UpdateRecord(r: map<Field, Word>, fs: set<Field>, ws: Writes): map<Field, Word>
    requires ws.Within(fs) && forall f :: f in fs ==> f.Shifts()
  {
    match ws
    case Start => r
    case Then(before, f, v) => UpdateRecord(r, fs, before)[f := Normalize(f, v)]
  }

  lemma WriteRefines(order: Order, m: seq<Octet>, fs: set<Field>, f: Field, v: Word)
    requires Layout(order, fs, |m|) && f in fs
    ensures Record(order, WriteField(order, m, f, v), fs) == Record(order, m, fs)[f := Normalize(f, v)]
  {
    forall g | g in fs
      ensures ReadField(order, WriteField(order, m, f, v), g)
           == if g == f then Normalize(f, v) else ReadField(order, m, g)
    {
      if g == f {
        ReadAfterWrite(order, m, f, v);
      } else {
        OtherFieldKept(order, m, f, v, g);
      }
    }
  }

  /** Any run of writes to the fields of an object implements the same run on its record. */
  lemma {:induction false} RunRefinesRecord(order: Order, m: seq<Octet>, fs: set<Field>, ws: Writes)
    requires Layout(order, fs, |m|) && ws.Within(fs)
    ensures Record(order, RunWrites(order, m, fs, ws), fs) == UpdateRecord(Record(order, m, fs), fs, ws)
  {
    if ws.Then? {
      RunRefinesRecord(order, m, fs, ws.before);
      WriteRefines(order, RunWrites(order, m, fs, ws.before), fs, ws.field, ws.value);
    }
  }

  /** Each field reads back its last written value, cut to its width and zero or sign extended,
      or what it held before the run. */
  lemma {:induction false} FieldAfterRun(order: Order, m: seq<Octet>, fs: set<Field>, ws: Writes, f: Field)
    requires Layout(order, fs, |m|) && ws.Within(fs) && f in fs
    ensures ReadField(order, RunWrites(order, m, fs, ws), f)
         == if ws.Touches(f) then Normalize(f, ws.Last(f)) else ReadField(order, m, f)
  {
    if ws.Then? {
      var before := RunWrites(order, m, fs, ws.before);
      if ws.field == f {
        ReadAfterWrite(order, before, f, ws.value);
      } else {
        FieldAfterRun(order, m, fs, ws.before, f);
        OtherFieldKept(order, before, ws.field, ws.value, f);
      }
    }
  }

  /** A bit of memory outside every field that a run writes to. */
  ghost predicate Untouched(order: Order, fs: set<Field>, ws: Writes, a: Place)
    requires forall f :: f in fs ==> f.WellFormed()
  {
    forall f :: f in fs && ws.Touches(f) ==> !InField(order, f, a)
  }

  /** And no bit outside the fields that were written ever changes. */
  lemma {:induction false} OtherBitsAfterRun(order: Order, m: seq<Octet>, fs: set<Field>, ws: Writes, a: Place)
    requires Layout(order, fs, |m|) && ws.Within(fs) && InMemory(m, a) && Untouched(order, fs, ws, a)
    ensures MemBit(RunWrites(order, m, fs, ws), a) == MemBit(m, a)
  {
    if ws.Then? {
      OtherBitsAfterRun(order, m, fs, ws.before, a);
      OtherBit(order, RunWrites(order, m, fs, ws.before), ws.field, ws.value, a);
    }
  }

  // ---------- Runs on an object in memory ----------

  datatype Assignment = Assignment(field: Field, value: Word)

  ghost function History(ws: seq<Assignment>): Writes {
    if ws == [] then Start
    else
      var last := ws[|ws| - 1];
      Then(History(ws[..|ws| - 1]), last.field, last.value)
  }

  lemma {:induction false} HistoryWithin(ws: seq<Assignment>, fs: set<Field>)
    requires forall w :: w in ws ==> w.field in fs
    ensures History(ws).Within(fs)
  {
    if ws != [] {
      HistoryWithin(ws[..|ws| - 1], fs);
      assert ws[|ws| - 1] in ws;
    }
  }

  lemma HistoryStep(ws: seq<Assignment>, i: nat)
    requires i < |ws|
    ensures History(ws[..i + 1]) == Then(History(ws[..i]), ws[i].field, ws[i].value)
  {
    assert ws[..i + 1][..i] == ws[..i];
  }

  /** An assignment that no later one overrides is the last one of the history. */
  lemma {:induction false} LastAssigned(ws: seq<Assignment>, i: nat)
    requires i < |ws| && forall k :: i < k < |ws| ==> ws[k].field != ws[i].field
    ensures History(ws).Touches(ws[i].field) && History(ws).Last(ws[i].field) == ws[i].value
  {
    if i < |ws| - 1 {
      LastAssigned(ws[..|ws| - 1], i);
    }
  }

  lemma {:induction false} NeverAssigned(ws: seq<Assignment>, f: Field)
    requires forall w :: w in ws ==> w.field != f
    ensures !History(ws).Touches(f)
  {
    if ws != [] {
      NeverAssigned(ws[..|ws| - 1], f);
      assert ws[|ws| - 1] in ws;
    }
  }

  /** Calls of the write macro, one after the other, on an object in memory: the record it
      holds is updated entry by entry, and no bit outside the written fields changes. */
  method WriteAll(order: Order, mem: array<Octet>, ghost fs: set<Field>, ws: seq<Assignment>)
    requires Layout(order, fs, mem.Length)
    requires forall w :: w in ws ==> w.field in fs
    modifies mem
    ensures History(ws).Within(fs)
    ensures mem[..] == RunWrites(order, old(mem[..]), fs, History(ws))
    ensures Record(order, mem[..], fs) == UpdateRecord(Record(order, old(mem[..]), fs), fs, History(ws))
    ensures forall i :: 0 <= i < |ws| && (forall k :: i < k < |ws| ==> ws[k].field != ws[i].field) ==>
              ReadField(order, mem[..], ws[i].field) == Normalize(ws[i].field, ws[i].value)
    ensures forall f :: f in fs && (forall w :: w in ws ==> w.field != f) ==>
              ReadField(order, mem[..], f) == ReadField(order, old(mem[..]), f)
    ensures forall a: Place :: InMemory(old(mem[..]), a) && Untouched(order, fs, History(ws), a) ==>
              MemBit(mem[..], a) == MemBit(old(mem[..]), a)
  {
    ghost var start := mem[..];
    HistoryWithin(ws[..0], fs);
    for i := 0 to |ws|
      invariant History(ws[..i]).Within(fs)
      invariant mem[..] == RunWrites(order, start, fs, History(ws[..i]))
    {
      HistoryStep(ws, i);
      assert ws[i] in ws;
      WriteBitfield(order, mem, ws[i].field, ws[i].value);
    }
    assert ws[..|ws|] == ws;
    RunRefinesRecord(order, start, fs, History(ws));
    forall i | 0 <= i < |ws| && (forall k :: i < k < |ws| ==> ws[k].field != ws[i].field)
      ensures ReadField(order, mem[..], ws[i].field) == Normalize(ws[i].field, ws[i].value)
    {
      LastAssigned(ws, i);
      FieldAfterRun(order, start, fs, History(ws), ws[i].field);
    }
    forall f | f in fs && (forall w :: w in ws ==> w.field != f)
      ensures ReadField(order, mem[..], f) == ReadField(order, start, f)
    {
      NeverAssigned(ws, f);
      FieldAfterRun(order, start, fs, History(ws), f);
    }
    forall a: Place | InMemory(start, a) && Untouched(order, fs, History(ws), a)
      ensures MemBit(mem[..], a) == MemBit(start, a)
    {
      OtherBitsAfterRun(order, start, fs, History(ws), a);
    }
  }
}
