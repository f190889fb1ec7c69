/** The pointer-chasing reads: BPF_CORE_READ and its variants expand a list of accessors by
    peeling off the last one; the result is the left to right chain of dereferences. */
module CoreRead {

  type Accessor = string

  /** The two helper functions of a variant: one for every pointer on the way, one for the
      final field. */
  datatype Reader = ForPointers | ForField

  /** What a helper stores when it reads the field named by the accessor, in the object at a
      pointer whose type is that of the root followed along a path (a failed read stores what
      the helper leaves in its destination). */
  type Deref = (Reader, seq<Accessor>, nat, Accessor) -> nat

  datatype Target = Temp | Destination

  /** One call of a helper, with the pointer it was given. */
  datatype Call = Call(reader: Reader, target: Target, path: seq<Accessor>, pointer: nat, accessor: Accessor)

  // ---------- The left to right meaning ----------

  /** src->a0->a1->... , every read through the pointer helper. */
  ghost function Chase(d: Deref, src: nat, path: seq<Accessor>, accessors: seq<Accessor>): nat
    decreases |accessors|
  {
    if accessors == [] then src
    else Chase(d, d(ForPointers, path, src, accessors[0]), path + [accessors[0]], accessors[1..])
  }

  /** The calls that makes, in order. */
  ghost function ChaseCalls(d: Deref, src: nat, path: seq<Accessor>, accessors: seq<Accessor>): seq<Call>
    decreases |accessors|
  {
    if accessors == [] then []
    else
      var a := accessors[0];
      [Call(ForPointers, Temp, path, src, a)]
      + ChaseCalls(d, d(ForPointers, path, src, a), path + [a], accessors[1..])
  }

  /** The whole read: pointers up to the last accessor, which is read into the destination. */
  ghost function LeftToRight(d: Deref, src: nat, path: seq<Accessor>, accessors: seq<Accessor>): nat
    requires accessors != []
    decreases |accessors|
  {
    var a := accessors[0];
    if |accessors| == 1 then d(ForField, path, src, a)
    else LeftToRight(d, d(ForPointers, path, src, a), path + [a], accessors[1..])
  }

  ghost function LeftToRightCalls(d: Deref, src: nat, path: seq<Accessor>, accessors: seq<Accessor>): (r: seq<Call>)
    requires accessors != []
    decreases |accessors|
  {
    var a := accessors[0];
    if |accessors| == 1 then [Call(ForField, Destination, path, src, a)]
    else
      [Call(ForPointers, Temp, path, src, a)]
      + LeftToRightCalls(d, d(ForPointers, path, src, a), path + [a], accessors[1..])
  }

  /** One read per accessor, in the order of the accessors; all but the last go through the
      pointer helper into the temporary, each from the pointer the previous one stored. */
  lemma {:induction false} CallsInOrder(d: Deref, src: nat, path: seq<Accessor>, accessors: seq<Accessor>, k: nat)
    requires k < |accessors|
    ensures |LeftToRightCalls(d, src, path, accessors)| == |accessors|
    ensures var c := LeftToRightCalls(d, src, path, accessors)[k];
            && c.accessor == accessors[k] && c.path == path + accessors[..k]
            && c.pointer == Chase(d, src, path, accessors[..k])
            && c.reader == (if k == |accessors| - 1 then ForField else ForPointers)
            && c.target == (if k == |accessors| - 1 then Destination else Temp)
            && (k == 0 ==> c.pointer == src)
    decreases |accessors|
  {
    var a, rest := accessors[0], accessors[1..];
    var next := d(ForPointers, path, src, a);
    if k == 0 {
      if |accessors| > 1 {
        CallsInOrder(d, next, path + [a], rest, 0);
      }
      assert path + accessors[..0] == path;
    } else {
      CallsInOrder(d, next, path + [a], rest, k - 1);
      assert accessors[..k] == [a] + rest[..k - 1];
      assert (path + [a]) + rest[..k - 1] == path + accessors[..k];
      assert accessors[..k][1..] == rest[..k - 1];
    }
  }

  ghost function Stored(d: Deref, c: Call): nat {
    d(c.reader, c.path, c.pointer, c.accessor)
  }

  /** The calls form a chain: the first starts from the source, each other one from what the
      call before it stored, and the value read is what the last one stores. */
  lemma {:induction false} CallsChain(d: Deref, src: nat, path: seq<Accessor>, accessors: seq<Accessor>, k: nat)
    requires k < |accessors|
    ensures |LeftToRightCalls(d, src, path, accessors)| == |accessors|
    ensures var calls := LeftToRightCalls(d, src, path, accessors);
            && calls[k].pointer == (if k == 0 then src else Stored(d, calls[k - 1]))
            && LeftToRight(d, src, path, accessors) == Stored(d, calls[|accessors| - 1])
    decreases |accessors|
  {
    if |accessors| > 1 {
      var next := d(ForPointers, path, src, accessors[0]);
      CallsChain(d, next, path + [accessors[0]], accessors[1..], if k == 0 then 0 else k - 1);
    }
  }

  // ---------- Peeling off the last accessor ----------

  lemma {:induction false} ChaseSnoc(d: Deref, src: nat, path: seq<Accessor>, front: seq<Accessor>, a: Accessor)
    ensures Chase(d, src, path, front + [a])
         == d(ForPointers, path + front, Chase(d, src, path, front), a)
    ensures ChaseCalls(d, src, path, front + [a])
         == ChaseCalls(d, src, path, front)
            + [Call(ForPointers, Temp, path + front, Chase(d, src, path, front), a)]
    decreases |front|
  {
    if front == [] {
      assert [] + [a] == [a] && path + [] == path;
      assert Chase(d, d(ForPointers, path, src, a), path + [a], []) == d(ForPointers, path, src, a);
    } else {
      var b, rest := front[0], front[1..];
      ChaseSnoc(d, d(ForPointers, path, src, b), path + [b], rest, a);
      assert (front + [a])[1..] == rest + [a];
      assert (path + [b]) + rest == path + front;
    }
  }

  lemma {:induction false} FinalSnoc(d: Deref, src: nat, path: seq<Accessor>, front: seq<Accessor>, a: Accessor)
    ensures LeftToRight(d, src, path, front + [a])
         == d(ForField, path + front, Chase(d, src, path, front), a)
    ensures LeftToRightCalls(d, src, path, front + [a])
         == ChaseCalls(d, src, path, front)
            + [Call(ForField, Destination, path + front, Chase(d, src, path, front), a)]
    decreases |front|
  {
    if front == [] {
      assert [] + [a] == [a] && path + [] == path;
    } else {
      var b, rest := front[0], front[1..];
      FinalSnoc(d, d(ForPointers, path, src, b), path + [b], rest, a);
      assert (front + [a])[1..] == rest + [a];
      assert (path + [b]) + rest == path + front;
    }
  }

  /** The state the expanded statements work on: the temporary, the caller's destination, and
      a record of the calls made. */
  class Expansion {
    const deref: Deref
    var t: nat
    var dst: nat
    ghost var calls: seq<Call>

    constructor (deref: Deref, dst: nat)
      ensures this.deref == deref && this.dst == dst && calls == []
    {
      this.deref, this.dst, this.t := deref, dst, 0;
      calls := [];
    }

    /** ___read into the temporary or into the destination. */
    method Read(reader: Reader, target: Target, path: seq<Accessor>, src: nat, a: Accessor)
      modifies this
      ensures calls == old(calls) + [Call(reader, target, path, src, a)]
      ensures t == if target.Temp? then deref(reader, path, src, a) else old(t)
      ensures dst == if target.Destination? then deref(reader, path, src, a) else old(dst)
    {
      var v := deref(reader, path, src, a);
      if target.Temp? {
        t := v;
      } else {
        dst := v;
      }
      calls := calls + [Call(reader, target, path, src, a)];
    }

    /** ___rd_p1, ___rd_p2, ...: the reads of all accessors but the last, then one from the
        temporary into the temporary. */
    method ReadPointers(src: nat, accessors: seq<Accessor>)
      requires accessors != []
      modifies this
      ensures t == Chase(deref, src, [], accessors)
      ensures calls == old(calls) + ChaseCalls(deref, src, [], accessors)
      ensures dst == old(dst)
      decreases |accessors|
    {
      var front, last := accessors[..|accessors| - 1], accessors[|accessors| - 1];
      assert accessors == front + [last] && [] + front == front;
      ChaseSnoc(deref, src, [], front, last);
      if |accessors| == 1 {
        Read(ForPointers, Temp, [], src, last);
      } else {
        ReadPointers(src, front);
        Read(ForPointers, Temp, front, t, last);
      }
    }

    /** ___core_read: one accessor is read at once; more read their pointers first. */
    method CoreRead(src: nat, accessors: seq<Accessor>)
      requires accessors != []
      modifies this
      ensures dst == LeftToRight(deref, src, [], accessors)
      ensures calls == old(calls) + LeftToRightCalls(deref, src, [], accessors)
    {
      var front, last := accessors[..|accessors| - 1], accessors[|accessors| - 1];
      assert accessors == front + [last] && [] + front == front;
      FinalSnoc(deref, src, [], front, last);
      if |accessors| == 1 {
        Read(ForField, Destination, [], src, last);
      } else {
        ReadPointers(src, front);
        Read(ForField, Destination, front, t, last);
      }
    }
  }
}
