/** The byte-order macros: byte swaps built from shifts, and the conversions between host and
    network order that choose between them. */
module Endian {
  import opened Words

  /** ___bpf_mvb in arithmetic of the width of x: byte n alone, put at byte m. */
  function MoveByte(x: Bits, n: nat, m: nat): (r: Bits)
    requires 8 * n + 8 <= |x|
    ensures |r| == |x|
  {
    Shl(Shr(Shl(x, |x| - (n + 1) * 8), |x| - 8), m * 8)
  }

  /** The moves n -> W - 1 - n of the first k bytes of a word of W bytes, or-ed together. */
  function SwapFirst(x: Bits, bytes: nat, k: nat): (r: Bits)
    requires |x| == 8 * bytes && k <= bytes
    ensures |r| == |x|
  {
    if k == 0 then Zeros(|x|)
    else Or(SwapFirst(x, bytes, k - 1), MoveByte(x, k - 1, bytes - k))
  }

  /** The swap written out for any number of bytes. */
  function Swab(x: Bits, bytes: nat): (r: Bits)
    requires |x| == 8 * bytes
    ensures |r| == |x|
  {
    SwapFirst(x, bytes, bytes)
  }

  function Swab32(x: Bits): (r: Bits)
    requires |x| == 32
    ensures |r| == 32
  {
    Or(Or(Or(MoveByte(x, 0, 3), MoveByte(x, 1, 2)), MoveByte(x, 2, 1)), MoveByte(x, 3, 0))
  }

  function Swab64(x: Bits): (r: Bits)
    requires |x| == 64
    ensures |r| == 64
  {
    Or(Or(Or(Or(Or(Or(Or(MoveByte(x, 0, 7), MoveByte(x, 1, 6)), MoveByte(x, 2, 5)), MoveByte(x, 3, 4)),
                MoveByte(x, 4, 3)), MoveByte(x, 5, 2)), MoveByte(x, 6, 1)), MoveByte(x, 7, 0))
  }

  /** Reversal of the bytes: the word stored in one byte order and loaded in the other. */
  function ReverseBytes(x: Bits, bytes: nat): (r: Bits)
    requires |x| == 8 * bytes
    ensures |r| == |x|
  {
    Load(Big, Store(Little, x, bytes), 0, bytes)
  }

  lemma ReversedBit(x: Bits, bytes: nat, k: nat, j: nat)
    requires |x| == 8 * bytes && k < bytes && j < 8
    ensures ReverseBytes(x, bytes)[8 * k + j] == x[8 * (bytes - 1 - k) + j]
  {
    var m := Store(Little, x, bytes);
    PositionUnique(k, j);
    LoadedBit(Big, m, 0, bytes, 8 * k + j);
    StoredBit(Little, x, bytes, bytes - 1 - k, j);
  }

  lemma MovedBit(x: Bits, n: nat, m: nat, k: nat, j: nat)
    requires 8 * n + 8 <= |x| && 8 * k + 8 <= |x| && j < 8
    ensures MoveByte(x, n, m)[8 * k + j] == (k == m && x[8 * n + j])
  {
    var i, up := 8 * k + j, Shl(x, |x| - (n + 1) * 8);
    var low := Shr(up, |x| - 8);
    assert MoveByte(x, n, m)[i] == (m * 8 <= i && low[i - m * 8]);
    if m <= k {
      var s := i - m * 8;
      assert low[s] == (s < 8 && up[s + |x| - 8]);
      if k == m {
        assert up[s + |x| - 8] == x[8 * n + j];
      }
    }
  }

  lemma {:induction false} SwappedBit(x: Bits, bytes: nat, done: nat, k: nat, j: nat)
    requires |x| == 8 * bytes && done <= bytes && k < bytes && j < 8
    ensures SwapFirst(x, bytes, done)[8 * k + j] == (bytes - 1 - k < done && x[8 * (bytes - 1 - k) + j])
  {
    if done > 0 {
      var before, moved := SwapFirst(x, bytes, done - 1), MoveByte(x, done - 1, bytes - done);
      SwappedBit(x, bytes, done - 1, k, j);
      MovedBit(x, done - 1, bytes - done, k, j);
      assert Or(before, moved)[8 * k + j] == (before[8 * k + j] || moved[8 * k + j]);
    }
  }

  /** Where the bit that lands at i comes from. */
  function Mirror(bytes: nat, i: nat): (r: nat)
    requires i < 8 * bytes
    ensures r < 8 * bytes
  {
    8 * (bytes - 1 - ByteOf(i)) + BitOf(i)
  }

  lemma MirrorTwice(bytes: nat, i: nat)
    requires i < 8 * bytes
    ensures Mirror(bytes, Mirror(bytes, i)) == i
  {
    PositionUnique(bytes - 1 - ByteOf(i), BitOf(i));
  }

  lemma SwabBit(x: Bits, bytes: nat, i: nat)
    requires |x| == 8 * bytes && i < 8 * bytes
    ensures Swab(x, bytes)[i] == x[Mirror(bytes, i)]
  {
    SwappedBit(x, bytes, bytes, ByteOf(i), BitOf(i));
  }

  lemma ReverseBit(x: Bits, bytes: nat, i: nat)
    requires |x| == 8 * bytes && i < 8 * bytes
    ensures ReverseBytes(x, bytes)[i] == x[Mirror(bytes, i)]
  {
    ReversedBit(x, bytes, ByteOf(i), BitOf(i));
  }

  /** For any width, the or of the moves reverses the bytes. */
  lemma SwabReverses(x: Bits, bytes: nat)
    requires |x| == 8 * bytes
    ensures Swab(x, bytes) == ReverseBytes(x, bytes)
  {
    var y, z := Swab(x, bytes), ReverseBytes(x, bytes);
    forall i | 0 <= i < 8 * bytes
      ensures y[i] == z[i]
    {
      SwabBit(x, bytes, i);
      ReverseBit(x, bytes, i);
    }
  }

  /** And is its own inverse. */
  lemma SwabTwice(x: Bits, bytes: nat)
    requires |x| == 8 * bytes
    ensures Swab(Swab(x, bytes), bytes) == x
  {
    var y := Swab(x, bytes);
    var z := Swab(y, bytes);
    forall i | 0 <= i < 8 * bytes
      ensures z[i] == x[i]
    {
      SwabBit(y, bytes, i);
      SwabBit(x, bytes, Mirror(bytes, i));
      MirrorTwice(bytes, i);
    }
  }

  lemma Swab32IsSwab(x: Bits)
    requires |x| == 32
    ensures Swab32(x) == Swab(x, 4)
  {
    var y := SwapFirst(x, 4, 2);
    assert SwapFirst(x, 4, 0) == Zeros(32);
    assert SwapFirst(x, 4, 1) == MoveByte(x, 0, 3);
    assert y == Or(MoveByte(x, 0, 3), MoveByte(x, 1, 2));
    assert SwapFirst(x, 4, 3) == Or(y, MoveByte(x, 2, 1));
    assert SwapFirst(x, 4, 4) == Or(SwapFirst(x, 4, 3), MoveByte(x, 3, 0));
  }

  lemma Swab64IsSwab(x: Bits)
    requires |x| == 64
    ensures Swab64(x) == Swab(x, 8)
  {
    assert SwapFirst(x, 8, 0) == Zeros(64);
    assert SwapFirst(x, 8, 1) == MoveByte(x, 0, 7);
    assert SwapFirst(x, 8, 2) == Or(SwapFirst(x, 8, 1), MoveByte(x, 1, 6));
    assert SwapFirst(x, 8, 3) == Or(SwapFirst(x, 8, 2), MoveByte(x, 2, 5));
    assert SwapFirst(x, 8, 4) == Or(SwapFirst(x, 8, 3), MoveByte(x, 3, 4));
    assert SwapFirst(x, 8, 5) == Or(SwapFirst(x, 8, 4), MoveByte(x, 4, 3));
    assert SwapFirst(x, 8, 6) == Or(SwapFirst(x, 8, 5), MoveByte(x, 5, 2));
    assert SwapFirst(x, 8, 7) == Or(SwapFirst(x, 8, 6), MoveByte(x, 6, 1));
    assert SwapFirst(x, 8, 8) == Or(SwapFirst(x, 8, 7), MoveByte(x, 7, 0));
  }

  // ---------- The 16-bit swap ----------

  /** ___bpf_mvb for 16 bits: the shifts count as for 16 bits, but C promotes the operand to a
      32-bit int, so nothing is cut off, and >> on an int copies the sign. */
  function MoveByte16(x: Bits, n: nat, m: nat): (r: Bits)
    requires |x| == 16 && n < 2 && m < 2
    ensures |r| == 32
  {
    Shl(Sar(Shl(Convert(x, 32), 16 - (n + 1) * 8), 16 - 8), m * 8)
  }

  /** The or of the two moves, still an int. */
  function Swab16Int(x: Bits): (r: Bits)
    requires |x| == 16
    ensures |r| == 32
  {
    Or(MoveByte16(x, 0, 1), MoveByte16(x, 1, 0))
  }

  /** The outer cast to __u16. */
  function Swab16(x: Bits): (r: Bits)
    requires |x| == 16
    ensures |r| == 16
  {
    Convert(Swab16Int(x), 16)
  }

  /** Byte by byte: the int holds the two bytes swapped, and the high byte once more. */
  lemma Swab16IntBit(x: Bits, i: nat)
    requires |x| == 16 && i < 32
    ensures Swab16Int(x)[i] ==
            if i < 8 then x[i + 8] else if i < 24 then x[i - 8] else false
  {}

  /** With the cast, the macro reverses the bytes. */
  lemma Swab16Reverses(x: Bits)
    requires |x| == 16
    ensures Swab16(x) == ReverseBytes(x, 2)
  {
    forall i | 0 <= i < 16
      ensures Swab16(x)[i] == ReverseBytes(x, 2)[i]
    {
      Swab16IntBit(x, i);
      ReverseBit(x, 2, i);
    }
  }

  /** Without the cast it would be right exactly for the values below 256. */
  lemma CastNeededExactly(x: Bits)
    requires |x| == 16
    ensures Swab16Int(x) == Convert(ReverseBytes(x, 2), 32) <==> Value(x) < 256
  {
    Swab16Reverses(x);
    HighByteZero(x);
    forall i | 0 <= i < 32
      ensures Swab16Int(x)[i] == if i < 8 then x[i + 8] else if i < 24 then x[i - 8] else false
    {
      Swab16IntBit(x, i);
    }
    if forall k :: 8 <= k < 16 ==> !x[k] {
      assert Swab16Int(x) == Convert(Swab16(x), 32);
    } else {
      var k :| 8 <= k < 16 && x[k];
      assert Swab16Int(x)[k + 8] && !Convert(Swab16(x), 32)[k + 8];
    }
  }

  lemma HighByteZero(x: Bits)
    requires |x| == 16
    ensures Value(x) < 256 <==> forall k :: 8 <= k < 16 ==> !x[k]
  {
    var high := x[8..];
    ValueSplit(x, 8);
    assert Pow2(8) == 256;
    ValueZeros(8);
    if Value(high) == 0 {
      ValueInjective(high, Zeros(8));
    }
    assert Value(high) == 0 <==> high == Zeros(8);
    if forall k :: 8 <= k < 16 ==> !x[k] {
      assert high == Zeros(8);
    } else {
      var k :| 8 <= k < 16 && x[k];
      assert high[k - 8] == x[k];
    }
  }

  // ---------- Host and network order ----------

  /** The swap macro for constants of 2, 4 and 8 bytes. */
  function ConstantSwap(x: Bits, bytes: nat): (r: Bits)
    requires |x| == 8 * bytes && (bytes == 2 || bytes == 4 || bytes == 8)
    ensures |r| == |x|
  {
    if bytes == 2 then Swab16(x) else if bytes == 4 then Swab32(x) else Swab64(x)
  }

  /** bpf_htons, bpf_htonl and bpf_cpu_to_be64, and with the same bodies bpf_ntohs, bpf_ntohl
      and bpf_be64_to_cpu: a constant goes through the macro, any other value through the
      compiler's swap, which reverses the bytes; on a big endian host nothing happens. */
  function NetworkOrder(host: Order, constant: bool, x: Bits, bytes: nat): (r: Bits)
    requires |x| == 8 * bytes && (bytes == 2 || bytes == 4 || bytes == 8)
    ensures |r| == |x|
  {
    match host
    case Little => if constant then ConstantSwap(x, bytes) else ReverseBytes(x, bytes)
    case Big => x
  }

  /** The constant and the run-time branch agree. */
  lemma BranchesAgree(x: Bits, bytes: nat)
    requires |x| == 8 * bytes && (bytes == 2 || bytes == 4 || bytes == 8)
    ensures ConstantSwap(x, bytes) == ReverseBytes(x, bytes)
  {
    if bytes == 2 {
      Swab16Reverses(x);
    } else if bytes == 4 {
      Swab32IsSwab(x);
      SwabReverses(x, 4);
    } else {
      Swab64IsSwab(x);
      SwabReverses(x, 8);
    }
  }

  lemma ReverseTwice(x: Bits, bytes: nat)
    requires |x| == 8 * bytes
    ensures ReverseBytes(ReverseBytes(x, bytes), bytes) == x
  {
    SwabReverses(x, bytes);
    SwabReverses(ReverseBytes(x, bytes), bytes);
    SwabTwice(x, bytes);
  }

  /** Stored in the host's order, a converted value has the bytes of network order: the most
      significant first (appendix B of RFC 791). */
  lemma NetworkBytes(host: Order, constant: bool, x: Bits, bytes: nat)
    requires |x| == 8 * bytes && (bytes == 2 || bytes == 4 || bytes == 8)
    ensures Store(host, NetworkOrder(host, constant, x, bytes), bytes) == Store(Big, x, bytes)
  {
    if host.Little? {
      BranchesAgree(x, bytes);
      StoreReversed(x, bytes);
    }
  }

  /** So the bytes spell the value, most significant byte first. */
  lemma NetworkValue(host: Order, constant: bool, x: Bits, bytes: nat)
    requires |x| == 8 * bytes && (bytes == 2 || bytes == 4 || bytes == 8)
    ensures BytesValue(Big, Store(host, NetworkOrder(host, constant, x, bytes), bytes), 0, bytes) == Value(x)
  {
    NetworkBytes(host, constant, x, bytes);
    LoadStore(Big, x, bytes);
    LoadValue(Big, Store(Big, x, bytes), 0, bytes);
  }

  lemma StoreReversed(x: Bits, bytes: nat)
    requires |x| == 8 * bytes
    ensures Store(Little, ReverseBytes(x, bytes), bytes) == Store(Big, x, bytes)
  {
    forall k | 0 <= k < bytes
      ensures Store(Little, ReverseBytes(x, bytes), bytes)[k] == Store(Big, x, bytes)[k]
    {
      forall j | 0 <= j < 8
        ensures Store(Little, ReverseBytes(x, bytes), bytes)[k][j] == Store(Big, x, bytes)[k][j]
      {
        ReversedBit(x, bytes, k, j);
      }
    }
  }

  /** Converting to network order and back is the identity, whichever branches are taken. */
  lemma RoundTrip(host: Order, c: bool, d: bool, x: Bits, bytes: nat)
    requires |x| == 8 * bytes && (bytes == 2 || bytes == 4 || bytes == 8)
    ensures NetworkOrder(host, d, NetworkOrder(host, c, x, bytes), bytes) == x
  {
    if host.Little? {
      BranchesAgree(x, bytes);
      BranchesAgree(ReverseBytes(x, bytes), bytes);
      ReverseTwice(x, bytes);
    }
  }
}
