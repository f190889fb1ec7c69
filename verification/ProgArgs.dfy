/** The argument macros of BPF programs: which u64 slots of the context an argument list takes,
    and how the values are taken out of them. */
module ProgArgs {
  import opened Words

  datatype List<T> = Nil | Cons(head: T, tail: List<T>)
  {
    function Length(): nat {
      if this.Nil? then 0 else 1 + tail.Length()
    }

    function At(k: nat): T
      requires k < Length()
    {
      if k == 0 then head else tail.At(k - 1)
    }
  }

  /** The sizes a program argument may have; any other does not compile. */
  predicate ArgSize(size: nat) {
    size == 1 || size == 2 || size == 4 || size == 8 || size == 16
  }

  predicate ArgSizes(types: List<nat>) {
    types.Cons? ==> ArgSize(types.head) && ArgSizes(types.tail)
  }

  ghost predicate SizedAt(types: List<nat>, k: nat) {
    k < types.Length() ==> types.At(k) in {1, 2, 4, 8, 16}
  }

  /** Exactly which argument lists compile. */
  lemma {:induction false} ArgSizesExactly(types: List<nat>)
    ensures ArgSizes(types) <==> forall k: nat :: SizedAt(types, k)
  {
    if types.Cons? {
      ArgSizesExactly(types.tail);
      assert SizedAt(types, 0) <==> ArgSize(types.head);
      forall k: nat
        ensures SizedAt(types, k + 1) <==> SizedAt(types.tail, k)
      {}
      forall k: nat | 0 < k
        ensures SizedAt(types, k) <==> SizedAt(types.tail, k - 1)
      {}
    }
  }

  // ---------- Slots ----------

  /** ___bpf_treg_cnt: the slots one argument takes. */
  function SlotCount(size: nat): (r: nat)
    requires ArgSize(size)
    ensures 8 * (r - 1) < size <= 8 * r
  {
    if size == 16 then 2 else 1
  }

  /** ___bpf_reg_cnt: the slots of a list of arguments, counted from the end. */
  function SlotsFrom(types: List<nat>): nat
    requires ArgSizes(types)
  {
    match types
    case Nil => 0
    case Cons(t, rest) => SlotsFrom(rest) + SlotCount(t)
  }

  /** ___bpf_ctx_arg for total slots: each argument starts at the total less the slots of the
      arguments from it on. */
  function SlotIndices(total: nat, types: List<nat>): (r: seq<int>)
    requires ArgSizes(types)
    ensures |r| == types.Length()
  {
    match types
    case Nil => []
    case Cons(t, rest) => [total - SlotsFrom(types)] + SlotIndices(total, rest)
  }

  /** The slot at which argument k starts when arguments are laid out one after the other. */
  function FirstSlot(types: List<nat>, k: nat): nat
    requires ArgSizes(types) && k <= types.Length()
  {
    if k == 0 then 0 else SlotCount(types.head) + FirstSlot(types.tail, k - 1)
  }

  lemma {:induction false} SlotIndexAt(total: nat, types: List<nat>, k: nat)
    requires ArgSizes(types) && k < types.Length()
    ensures SlotIndices(total, types)[k] == total - SlotsFrom(types) + FirstSlot(types, k)
  {
    if k > 0 {
      SlotIndexAt(total, types.tail, k - 1);
    }
  }

  /** The total less the suffix count is the sum of the counts before the argument. */
  lemma SlotsArePrefixSums(types: List<nat>, k: nat)
    requires ArgSizes(types) && k < types.Length()
    ensures SlotIndices(SlotsFrom(types), types)[k] == FirstSlot(types, k)
  {
    SlotIndexAt(SlotsFrom(types), types, k);
  }

  /** The slots before argument k, each argument taking one for every 8 bytes begun. */
  ghost function SlotsBefore(types: List<nat>, k: nat): nat
    requires k <= types.Length()
  {
    if k == 0 then 0 else SlotsBefore(types, k - 1) + (types.At(k - 1) + 7) / 8
  }

  lemma {:induction false} SlotsBeforeTail(types: List<nat>, k: nat)
    requires types.Cons? && k < types.Length()
    ensures SlotsBefore(types, k + 1) == (types.head + 7) / 8 + SlotsBefore(types.tail, k)
  {
    if k > 0 {
      SlotsBeforeTail(types, k - 1);
    } else {
      assert SlotsBefore(types, 0) == 0;
    }
  }

  /** Argument k starts there, and the total is the sum over all arguments. */
  lemma {:induction false} FirstSlotIsSum(types: List<nat>, k: nat)
    requires ArgSizes(types) && k <= types.Length()
    ensures FirstSlot(types, k) == SlotsBefore(types, k)
    ensures SlotsFrom(types) == SlotsBefore(types, types.Length())
    decreases types
  {
    if types.Cons? {
      FirstSlotIsSum(types.tail, if k == 0 then 0 else k - 1);
      SlotsBeforeTail(types, types.Length() - 1);
      if k > 0 {
        SlotsBeforeTail(types, k - 1);
      }
    }
  }

  ghost predicate Owns(types: List<nat>, k: nat, slot: nat)
    requires ArgSizes(types)
  {
    && k < types.Length()
    && FirstSlot(types, k) <= slot < FirstSlot(types, k + 1)
  }

  /** The arguments' slots cover [0, total) without gap or overlap: each slot in the range
      belongs to exactly one argument, and no argument reaches outside it. */
  lemma {:induction false} SlotsTile(types: List<nat>, slot: nat)
    requires ArgSizes(types)
    ensures slot < SlotsFrom(types) <==> exists k: nat :: Owns(types, k, slot)
    ensures forall j: nat, k: nat :: Owns(types, j, slot) && Owns(types, k, slot) ==> j == k
  {
    if types.Cons? {
      var n := SlotCount(types.head);
      if slot < n {
        assert Owns(types, 0, slot);
        forall k: nat | 0 < k < types.Length()
          ensures !Owns(types, k, slot)
        {
          assert FirstSlot(types, k) == n + FirstSlot(types.tail, k - 1);
        }
      } else {
        var s := slot - n;
        SlotsTile(types.tail, s);
        if exists k: nat :: Owns(types, k, slot) {
          var k: nat :| Owns(types, k, slot);
          OwnerInTail(types, k, slot);
        }
        if exists k: nat :: Owns(types.tail, k, s) {
          var k: nat :| Owns(types.tail, k, s);
          OwnerInTail(types, k + 1, slot);
        }
        forall j: nat, k: nat | Owns(types, j, slot) && Owns(types, k, slot)
          ensures j == k
        {
          OwnerInTail(types, j, slot);
          OwnerInTail(types, k, slot);
        }
      }
    }
  }

  lemma OwnerInTail(types: List<nat>, k: nat, slot: nat)
    requires ArgSizes(types) && types.Cons? && slot >= SlotCount(types.head)
    ensures Owns(types, k, slot) <==> k > 0 && Owns(types.tail, k - 1, slot - SlotCount(types.head))
  {
    if k == 0 {
      assert FirstSlot(types, 1) == SlotCount(types.head) + FirstSlot(types.tail, 0);
    }
  }

  // ---------- BPF_PROG ----------

  /** ___bpf_ctx_cast: the slots in the order of the expansion, built from the last one. */
  function CastIndices(types: List<nat>): (r: seq<nat>)
    ensures |r| == types.Length()
  {
    match types
    case Nil => []
    case Cons(_, rest) => CastIndices(rest) + [rest.Length()]
  }

  lemma {:induction false} CastIndexAt(types: List<nat>, k: nat)
    requires k < types.Length()
    ensures CastIndices(types)[k] == k
  {
    if k < types.tail.Length() {
      CastIndexAt(types.tail, k);
    }
  }

  /** Every argument but the last fits one slot. */
  predicate OneSlotButLast(types: List<nat>) {
    types.Cons? && types.tail.Cons? ==> types.head <= 8 && OneSlotButLast(types.tail)
  }

  /** Every argument starts at the slot of its position in the list. */
  ghost predicate InPlace(types: List<nat>)
    requires ArgSizes(types)
  {
    forall k: nat :: k < types.Length() ==> FirstSlot(types, k) == k
  }

  lemma {:induction false} InPlaceExactly(types: List<nat>)
    requires ArgSizes(types)
    ensures InPlace(types) <==> OneSlotButLast(types)
  {
    if types.Cons? && types.tail.Cons? {
      InPlaceExactly(types.tail);
      assert FirstSlot(types, 1) == SlotCount(types.head) + FirstSlot(types.tail, 0);
      if InPlace(types) {
        assert SlotCount(types.head) == 1;
        forall k: nat | k < types.tail.Length()
          ensures FirstSlot(types.tail, k) == k
        {
          assert FirstSlot(types, k + 1) == k + 1;
        }
      }
      if types.head <= 8 && InPlace(types.tail) {
        forall k: nat | 0 < k < types.Length()
          ensures FirstSlot(types, k) == k
        {
          assert FirstSlot(types.tail, k - 1) == k - 1;
        }
      }
    }
  }

  /** Exactly when the two macros agree on the slots: iff no argument before the last takes
      two. */
  lemma MacrosAgreeExactly(types: List<nat>)
    requires ArgSizes(types)
    ensures SlotIndices(SlotsFrom(types), types) == CastIndices(types) <==> OneSlotButLast(types)
  {
    var a: seq<int>, b: seq<int> := SlotIndices(SlotsFrom(types), types), CastIndices(types);
    forall k: nat | k < types.Length()
      ensures a[k] == FirstSlot(types, k) && b[k] == k
    {
      SlotsArePrefixSums(types, k);
      CastIndexAt(types, k);
    }
    if a == b {
      assert forall k: nat :: k < types.Length() ==> FirstSlot(types, k) == a[k];
      assert InPlace(types);
    }
    InPlaceExactly(types);
  }

  // ---------- Values ----------

  /** ___bpf_union_arg: the bytes of the argument, taken through a union with one or two
      integers that are filled from the slots, truncated to their type. */
  function UnionArg(order: Order, ctx: seq<Word>, n: nat, size: nat): (r: seq<Octet>)
    requires ArgSize(size) && n + SlotCount(size) <= |ctx|
    ensures |r| == size
  {
    if size == 16 then Store(order, ctx[n], WORD_BYTES) + Store(order, ctx[n + 1], WORD_BYTES)
    else Store(order, Convert(ctx[n], 8 * size), size)
  }

  /** The argument values BPF_PROG2 passes on. */
  function Unpack(order: Order, ctx: seq<Word>, total: nat, types: List<nat>): (r: List<seq<Octet>>)
    requires ArgSizes(types) && SlotsFrom(types) <= total <= |ctx|
  {
    match types
    case Nil => Nil
    case Cons(t, rest) =>
      Cons(UnionArg(order, ctx, total - SlotsFrom(types), t), Unpack(order, ctx, total, rest))
  }

  function Types(values: List<seq<Octet>>): List<nat> {
    match values
    case Nil => Nil
    case Cons(v, rest) => Cons(|v|, Types(rest))
  }

  /** A value lies in the slots from n on: a short one in the low bits of its slot, whatever
      the other bits are, one of 16 bytes in two slots. */
  ghost predicate Holds(order: Order, ctx: seq<Word>, n: nat, v: seq<Octet>)
    requires ArgSize(|v|)
  {
    && n + SlotCount(|v|) <= |ctx|
    && if |v| == 16 then ctx[n] == Load(order, v, 0, WORD_BYTES) && ctx[n + 1] == Load(order, v, WORD_BYTES, WORD_BYTES)
       else Convert(ctx[n], 8 * |v|) == Load(order, v, 0, |v|)
  }

  /** The values lie one after the other in the slots from n on. */
  ghost predicate LaidOut(order: Order, ctx: seq<Word>, n: nat, values: List<seq<Octet>>)
    requires ArgSizes(Types(values))
    decreases values
  {
    match values
    case Nil => n <= |ctx|
    case Cons(v, rest) => Holds(order, ctx, n, v) && LaidOut(order, ctx, n + SlotCount(|v|), rest)
  }

  lemma UnionArgReads(order: Order, ctx: seq<Word>, n: nat, v: seq<Octet>)
    requires ArgSize(|v|) && Holds(order, ctx, n, v)
    ensures UnionArg(order, ctx, n, |v|) == v
  {
    if |v| == 16 {
      StoreLoad(order, v, 0, WORD_BYTES);
      StoreLoad(order, v, WORD_BYTES, WORD_BYTES);
      var r := UnionArg(order, ctx, n, 16);
      forall k | 0 <= k < 16
        ensures r[k] == v[k]
      {
        if k >= 8 {
          assert r[k] == Store(order, ctx[n + 1], WORD_BYTES)[k - 8] == v[8 + (k - 8)];
        }
      }
    } else {
      StoreLoad(order, v, 0, |v|);
    }
  }

  lemma {:induction false} LaidOutFits(order: Order, ctx: seq<Word>, n: nat, values: List<seq<Octet>>)
    requires ArgSizes(Types(values)) && LaidOut(order, ctx, n, values)
    ensures n + SlotsFrom(Types(values)) <= |ctx|
    decreases values
  {
    if values.Cons? {
      LaidOutFits(order, ctx, n + SlotCount(|values.head|), values.tail);
    }
  }

  lemma {:induction false} UnpackFrom(order: Order, ctx: seq<Word>, n: nat, values: List<seq<Octet>>)
    requires ArgSizes(Types(values)) && LaidOut(order, ctx, n, values)
    ensures n + SlotsFrom(Types(values)) <= |ctx|
    ensures Unpack(order, ctx, n + SlotsFrom(Types(values)), Types(values)) == values
    decreases values
  {
    LaidOutFits(order, ctx, n, values);
    if values.Cons? {
      UnionArgReads(order, ctx, n, values.head);
      UnpackFrom(order, ctx, n + SlotCount(|values.head|), values.tail);
    }
  }

  /** Which slots argument k is taken from, for any context: the low bits of one, or two in
      this order. */
  lemma UnpackAt(order: Order, ctx: seq<Word>, types: List<nat>, k: nat)
    requires ArgSizes(types) && SlotsFrom(types) <= |ctx| && k < types.Length()
    ensures ArgSize(types.At(k)) && SlotsBefore(types, k) + (types.At(k) + 7) / 8 <= |ctx|
    ensures k < Unpack(order, ctx, SlotsFrom(types), types).Length()
    ensures var size, n := types.At(k), SlotsBefore(types, k);
            Unpack(order, ctx, SlotsFrom(types), types).At(k)
            == if size == 16 then Store(order, ctx[n], WORD_BYTES) + Store(order, ctx[n + 1], WORD_BYTES)
               else Store(order, Convert(ctx[n], 8 * size), size)
  {
    UnpackIndex(order, ctx, SlotsFrom(types), types, k);
    FirstSlotIsSum(types, k);
  }

  lemma {:induction false} UnpackIndex(order: Order, ctx: seq<Word>, total: nat, types: List<nat>, k: nat)
    requires ArgSizes(types) && SlotsFrom(types) <= total <= |ctx| && k < types.Length()
    ensures ArgSize(types.At(k)) && total - SlotsFrom(types) + FirstSlot(types, k) + SlotCount(types.At(k)) <= total
    ensures k < Unpack(order, ctx, total, types).Length()
    ensures Unpack(order, ctx, total, types).At(k)
         == UnionArg(order, ctx, total - SlotsFrom(types) + FirstSlot(types, k), types.At(k))
    decreases types
  {
    if k > 0 {
      UnpackIndex(order, ctx, total, types.tail, k - 1);
    } else {
      assert FirstSlot(types, 0) == 0;
    }
  }

  /** What it means for a slot to hold a value, as numbers: the low bits of the slot are the
      number the bytes spell; a value of 16 bytes has its first 8 bytes in the first slot. */
  lemma HoldsValue(order: Order, ctx: seq<Word>, n: nat, v: seq<Octet>)
    requires ArgSize(|v|) && n + SlotCount(|v|) <= |ctx|
    ensures |v| < 16 ==>
              (Holds(order, ctx, n, v) <==>
               Value(ctx[n]) % Pow2(8 * |v|) == BytesValue(order, v, 0, |v|))
    ensures |v| == 16 ==>
              (Holds(order, ctx, n, v) <==>
               && Value(ctx[n]) == BytesValue(order, v, 0, 8)
               && Value(ctx[n + 1]) == BytesValue(order, v, 8, 8))
  {
    if |v| == 16 {
      SameAsLoad(order, ctx[n], v, 0, WORD_BYTES);
      SameAsLoad(order, ctx[n + 1], v, WORD_BYTES, WORD_BYTES);
    } else {
      var low := Convert(ctx[n], 8 * |v|);
      assert low == ctx[n][..8 * |v|];
      ValueSplit(ctx[n], 8 * |v|);
      SameAsLoad(order, low, v, 0, |v|);
    }
  }

  lemma SameAsLoad(order: Order, x: Bits, m: seq<Octet>, at: nat, n: nat)
    requires at + n <= |m| && |x| == 8 * n
    ensures x == Load(order, m, at, n) <==> Value(x) == BytesValue(order, m, at, n)
  {
    LoadValue(order, m, at, n);
    if Value(x) == BytesValue(order, m, at, n) {
      ValueInjective(x, Load(order, m, at, n));
    }
  }

  /** Whatever the other bits of the slots hold, the macro hands over exactly the arguments
      that were laid out from slot 0 on. */
  lemma UnpackReturnsArguments(order: Order, ctx: seq<Word>, values: List<seq<Octet>>)
    requires ArgSizes(Types(values)) && LaidOut(order, ctx, 0, values)
    ensures SlotsFrom(Types(values)) <= |ctx|
    ensures Unpack(order, ctx, SlotsFrom(Types(values)), Types(values)) == values
  {
    UnpackFrom(order, ctx, 0, values);
  }

  // ---------- Laying arguments out ----------

  /** The slots of one argument, short ones zero extended. */
  function PackOne(order: Order, v: seq<Octet>): (r: seq<Word>)
    requires ArgSize(|v|)
    ensures |r| == SlotCount(|v|)
  {
    if |v| == 16 then [Load(order, v, 0, WORD_BYTES), Load(order, v, WORD_BYTES, WORD_BYTES)]
    else [Convert(Load(order, v, 0, |v|), 64)]
  }

  function Pack(order: Order, values: List<seq<Octet>>): (r: seq<Word>)
    requires ArgSizes(Types(values))
    ensures |r| == SlotsFrom(Types(values))
  {
    match values
    case Nil => []
    case Cons(v, rest) => PackOne(order, v) + Pack(order, rest)
  }

  lemma PackOneHolds(order: Order, v: seq<Octet>, before: seq<Word>, after: seq<Word>)
    requires ArgSize(|v|)
    ensures Holds(order, before + PackOne(order, v) + after, |before|, v)
  {
    var ctx := before + PackOne(order, v) + after;
    if |v| == 16 {
      assert ctx[|before|] == PackOne(order, v)[0] && ctx[|before| + 1] == PackOne(order, v)[1];
    } else {
      assert ctx[|before|] == PackOne(order, v)[0];
    }
  }

  lemma {:induction false} PackLaysOut(order: Order, before: seq<Word>, values: List<seq<Octet>>)
    requires ArgSizes(Types(values))
    ensures LaidOut(order, before + Pack(order, values), |before|, values)
    decreases values
  {
    match values
    case Nil =>
    case Cons(v, rest) =>
      PackOneHolds(order, v, before, Pack(order, rest));
      PackLaysOut(order, before + PackOne(order, v), rest);
      assert before + Pack(order, values) == before + PackOne(order, v) + Pack(order, rest);
  }

  /** Packing and unpacking any argument list is the identity. */
  lemma PackUnpack(order: Order, values: List<seq<Octet>>)
    requires ArgSizes(Types(values))
    ensures Unpack(order, Pack(order, values), SlotsFrom(Types(values)), Types(values)) == values
  {
    PackLaysOut(order, [], values);
    assert [] + Pack(order, values) == Pack(order, values);
    UnpackReturnsArguments(order, Pack(order, values), values);
  }
}
