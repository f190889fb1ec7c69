/** Machine words as sequences of bits, least significant bit first, with C's operators on
    unsigned words of a fixed width, their arithmetic meaning, and their layout in memory. */
module Words {

  type Bits = seq<bool>
  type Octet = b: Bits | |b| == 8 witness [false, false, false, false, false, false, false, false]
  type Word = w: Bits | |w| == 64 witness Zeros(64)

  /** sizeof(unsigned long long) */
  const WORD_BYTES: nat := 8

  // ---------- Operators ----------

  function Fill(b: bool, n: nat): (r: Bits)
    ensures |r| == n && forall i :: 0 <= i < n ==> r[i] == b
  {
    seq(n, _ => b)
  }

  function Zeros(n: nat): (r: Bits)
    ensures |r| == n
  {
    Fill(false, n)
  }

  /** x << s, kept to the width of x. */
  function Shl(x: Bits, s: nat): (r: Bits)
    ensures |r| == |x|
  {
    seq(|x|, i requires 0 <= i < |x| => s <= i && x[i - s])
  }

  /** x >> s for an unsigned x. */
  function Shr(x: Bits, s: nat): (r: Bits)
    ensures |r| == |x|
  {
    seq(|x|, i requires 0 <= i < |x| => i + s < |x| && x[i + s])
  }

  /** x >> s for a signed x: the sign bit is copied in. */
  function Sar(x: Bits, s: nat): (r: Bits)
    ensures |r| == |x|
  {
    seq(|x|, i requires 0 <= i < |x| => if i + s < |x| then x[i + s] else x[|x| - 1])
  }

  function Not(x: Bits): (r: Bits)
    ensures |r| == |x|
  {
    seq(|x|, i requires 0 <= i < |x| => !x[i])
  }

  function And(x: Bits, y: Bits): (r: Bits)
    requires |x| == |y|
    ensures |r| == |x|
  {
    seq(|x|, i requires 0 <= i < |x| => x[i] && y[i])
  }

  function Or(x: Bits, y: Bits): (r: Bits)
    requires |x| == |y|
    ensures |r| == |x|
  {
    seq(|x|, i requires 0 <= i < |x| => x[i] || y[i])
  }

  /** Conversion to an unsigned type of n bits: cut off, or filled with zeros. */
  function Convert(x: Bits, n: nat): (r: Bits)
    ensures |r| == n
  {
    seq(n, i requires 0 <= i < n => i < |x| && x[i])
  }

  // ---------- Numbers ----------

  function Pow2(n: nat): (r: nat)
    ensures r > 0
  {
    if n == 0 then 1 else 2 * Pow2(n - 1)
  }

  function Digit(b: bool): nat {
    if b then 1 else 0
  }

  /** The unsigned number a word stands for. */
  function Value(x: Bits): nat {
    if x == [] then 0 else Digit(x[0]) + 2 * Value(x[1..])
  }

  /** The two's complement number a word stands for. */
  function SignedValue(x: Bits): int {
    if x != [] && x[|x| - 1] then Value(x) - Pow2(|x|) else Value(x)
  }

  lemma {:induction false} PowAdd(a: nat, b: nat)
    ensures Pow2(a + b) == Pow2(a) * Pow2(b)
  {
    if a > 0 {
      PowAdd(a - 1, b);
      assert Pow2(a) * Pow2(b) == 2 * (Pow2(a - 1) * Pow2(b));
    }
  }

  lemma {:induction false} ValueBound(x: Bits)
    ensures Value(x) < Pow2(|x|)
  {
    if x != [] {
      ValueBound(x[1..]);
    }
  }

  lemma {:induction false} ValueConcat(x: Bits, y: Bits)
    ensures Value(x + y) == Value(x) + Pow2(|x|) * Value(y)
  {
    if x == [] {
      assert x + y == y;
    } else {
      ValueConcat(x[1..], y);
      assert (x + y)[1..] == x[1..] + y;
      assert Pow2(|x|) * Value(y) == 2 * (Pow2(|x| - 1) * Value(y));
    }
  }

  lemma {:induction false} ValueZeros(n: nat)
    ensures Value(Zeros(n)) == 0
  {
    if n > 0 {
      assert Zeros(n)[1..] == Zeros(n - 1);
      ValueZeros(n - 1);
    }
  }

  lemma {:induction false} ValueAppendZeros(x: Bits, n: nat)
    ensures Value(x + Zeros(n)) == Value(x)
  {
    if x == [] {
      assert x + Zeros(n) == Zeros(n);
      ValueZeros(n);
    } else {
      assert (x + Zeros(n))[1..] == x[1..] + Zeros(n);
      ValueAppendZeros(x[1..], n);
    }
  }

  lemma MultipleIsFar(d: int, k: int)
    requires d > 0
    ensures k >= 1 ==> d * k >= d
    ensures k <= -1 ==> d * k <= -d
  {}

  lemma DivModUnique(v: nat, d: nat, q: nat, r: nat)
    requires d > 0 && r < d && v == r + d * q
    ensures v / d == q && v % d == r
  {
    MultipleIsFar(d, v / d - q);
    assert d * (v / d - q) == d * (v / d) - d * q == r - v % d;
  }

  /** The low n bits are the remainder by 2^n, the others the quotient. */
  lemma ValueSplit(x: Bits, n: nat)
    requires n <= |x|
    ensures Value(x[..n]) == Value(x) % Pow2(n)
    ensures Value(x[n..]) == Value(x) / Pow2(n)
  {
    assert x == x[..n] + x[n..];
    ValueConcat(x[..n], x[n..]);
    ValueBound(x[..n]);
    DivModUnique(Value(x), Pow2(n), Value(x[n..]), Value(x[..n]));
  }

  /** A left shift multiplies by 2^s, modulo the width. */
  lemma ValueShl(x: Bits, s: nat)
    ensures Value(Shl(x, s)) == (Value(x) * Pow2(s)) % Pow2(|x|)
  {
    var wide := Zeros(s) + x;
    assert Value(wide) == Value(x) * Pow2(s) by {
      ValueConcat(Zeros(s), x);
      ValueZeros(s);
    }
    assert Shl(x, s) == wide[..|x|];
    assert |x| <= |wide|;
    ValueSplit(wide, |x|);
  }

  /** A logical right shift divides by 2^s. */
  lemma ValueShr(x: Bits, s: nat)
    ensures Value(Shr(x, s)) == Value(x) / Pow2(s)
  {
    if s <= |x| {
      assert Shr(x, s) == x[s..] + Zeros(s);
      ValueAppendZeros(x[s..], s);
      ValueSplit(x, s);
    } else {
      assert Shr(x, s) == Zeros(|x|);
      ValueZeros(|x|);
      ValueBound(x);
      PowMonotone(|x|, s);
      DivModUnique(Value(x), Pow2(s), 0, Value(x));
    }
  }

  lemma {:induction false} PowMonotone(a: nat, b: nat)
    requires a <= b
    ensures Pow2(a) <= Pow2(b)
  {
    if a < b {
      PowMonotone(a, b - 1);
    }
  }

  lemma {:induction false} ValueNot(x: Bits)
    ensures Value(Not(x)) == Pow2(|x|) - 1 - Value(x)
  {
    if x != [] {
      ValueNot(x[1..]);
      assert Not(x)[1..] == Not(x[1..]);
    }
  }

  lemma ValueOnes(n: nat)
    ensures Value(Not(Zeros(n))) == Pow2(n) - 1
  {
    ValueNot(Zeros(n));
    ValueZeros(n);
  }

  lemma SignedZeros(n: nat)
    ensures SignedValue(Zeros(n)) == 0
  {
    ValueZeros(n);
  }

  lemma ConvertWidens(x: Bits, n: nat)
    requires |x| <= n
    ensures Convert(x, n) == x + Zeros(n - |x|)
  {}

  /** Widening to an unsigned type keeps the number. */
  lemma ValueWiden(x: Bits, n: nat)
    requires |x| <= n
    ensures Value(Convert(x, n)) == Value(x)
  {
    ConvertWidens(x, n);
    ValueAppendZeros(x, n - |x|);
  }

  /** Words of one width that stand for the same number are the same. */
  lemma {:induction false} ValueInjective(x: Bits, y: Bits)
    requires |x| == |y| && Value(x) == Value(y)
    ensures x == y
  {
    if x != [] {
      assert Value(x) % 2 == Digit(x[0]) && Value(y) % 2 == Digit(y[0]);
      ValueInjective(x[1..], y[1..]);
      assert x == [x[0]] + x[1..] && y == [y[0]] + y[1..];
    }
  }

  lemma ValueThree(a: Bits, b: Bits, c: Bits)
    ensures Value(a + b + c) == Value(a) + Pow2(|a|) * (Value(b) + Pow2(|b|) * Value(c))
  {
    assert a + b + c == a + (b + c);
    ValueConcat(a, b + c);
    ValueConcat(b, c);
  }

  /** The number of a slice of a word: quotient by what lies below, remainder by its width. */
  lemma ValueMiddle(a: Bits, b: Bits, c: Bits)
    ensures Value(a + b + c) / Pow2(|a|) % Pow2(|b|) == Value(b)
  {
    ValueThree(a, b, c);
    ValueBound(a);
    ValueBound(b);
    DivModUnique(Value(a + b + c), Pow2(|a|), Value(b) + Pow2(|b|) * Value(c), Value(a));
    DivModUnique(Value(b) + Pow2(|b|) * Value(c), Pow2(|b|), Value(c), Value(b));
  }

  /** Replacing a slice takes its number out at its place and puts the new one in. */
  lemma ValueReplace(a: Bits, b: Bits, c: Bits, d: Bits)
    requires |d| == |b|
    ensures Value(a + d + c) == Value(a + b + c) - Pow2(|a|) * Value(b) + Pow2(|a|) * Value(d)
  {
    assert a + b + c == a + (b + c) && a + d + c == a + (d + c);
    ValueConcat(a, b + c);
    ValueConcat(a, d + c);
    assert Value(d + c) == Value(b + c) - Value(b) + Value(d) by {
      ValueConcat(b, c);
      ValueConcat(d, c);
    }
    TimesReplaced(Pow2(|a|), Value(b + c), Value(d + c), Value(b), Value(d));
  }

  lemma TimesReplaced(p: int, u: int, w: int, x: int, y: int)
    requires w == u - x + y
    ensures p * w == p * u - p * x + p * y
  {}

  lemma TimesDifference(k: int, x: int, y: int)
    ensures k * (x - y) == k * x - k * y
  {}

  lemma TopBit(x: Bits)
    requires x != []
    ensures x[|x| - 1] <==> Value(x) >= Pow2(|x| - 1)
  {
    var low, top := x[..|x| - 1], [x[|x| - 1]];
    assert x == low + top;
    ValueConcat(low, top);
    ValueBound(low);
  }

  /** Copying the top bit of a field of w bits into n more bits keeps its signed value. */
  lemma SignExtension(x: Bits, n: nat)
    requires x != []
    ensures SignedValue(x + Fill(x[|x| - 1], n)) == SignedValue(x)
  {
    var fill := Fill(x[|x| - 1], n);
    ValueConcat(x, fill);
    if x[|x| - 1] {
      assert fill == Not(Zeros(n));
      ValueOnes(n);
      PowAdd(|x|, n);
      TimesDifference(Pow2(|x|), Pow2(n), 1);
    } else {
      assert fill == Zeros(n);
      ValueZeros(n);
    }
  }

  // ---------- Layout in memory ----------

  datatype Order = Little | Big

  /** The byte of a word that holds bit p, and the bit's position in that byte. */
  function ByteOf(p: nat): (k: nat)
    ensures 8 * k <= p < 8 * k + 8
  {
    if p < 8 then 0 else 1 + ByteOf(p - 8)
  }

  function BitOf(p: nat): (j: nat)
    ensures j < 8 && 8 * ByteOf(p) + j == p
  {
    if p < 8 then p else BitOf(p - 8)
  }

  /** The byte of memory that holds byte k, counted from the lowest, of a unit of n bytes. */
  function BytePosition(order: Order, n: nat, k: nat): (r: nat)
    requires k < n
    ensures r < n
  {
    if order.Little? then k else n - 1 - k
  }

  /** Bit i of the word stored in the n bytes of m that start at at: in the lowest byte, or bit
      i - 8 of the word in the other bytes. */
  function LoadBit(order: Order, m: seq<Octet>, at: nat, n: nat, i: nat): bool
    requires at + n <= |m| && i < 8 * n
    decreases n
  {
    if i < 8 then m[at + BytePosition(order, n, 0)][i]
    else LoadBit(order, m, if order.Little? then at + 1 else at, n - 1, i - 8)
  }

  function Load(order: Order, m: seq<Octet>, at: nat, n: nat): (r: Bits)
    requires at + n <= |m|
    ensures |r| == 8 * n
  {
    seq(8 * n, i requires 0 <= i < 8 * n => LoadBit(order, m, at, n, i))
  }

  /** Byte k of a word, counted from the lowest. */
  function ByteAt(x: Bits, k: nat): Octet
    requires 8 * k + 8 <= |x|
  {
    seq(8, j requires 0 <= j < 8 => x[8 * k + j])
  }

  /** The n bytes of a word, in memory order. */
  function Store(order: Order, x: Bits, n: nat): (m: seq<Octet>)
    requires |x| == 8 * n
    ensures |m| == n
  {
    seq(n, k requires 0 <= k < n => ByteAt(x, BytePosition(order, n, k)))
  }

  lemma {:induction false} PositionUnique(k: nat, j: nat)
    requires j < 8
    ensures ByteOf(8 * k + j) == k && BitOf(8 * k + j) == j
  {
    if k > 0 {
      PositionUnique(k - 1, j);
    }
  }

  lemma {:induction false} LoadedBit(order: Order, m: seq<Octet>, at: nat, n: nat, i: nat)
    requires at + n <= |m| && i < 8 * n
    ensures Load(order, m, at, n)[i] == LoadBit(order, m, at, n, i)
         == m[at + BytePosition(order, n, ByteOf(i))][BitOf(i)]
    decreases n
  {
    if i >= 8 {
      LoadedBit(order, m, if order.Little? then at + 1 else at, n - 1, i - 8);
    }
  }

  lemma StoredByte(order: Order, x: Bits, n: nat, k: nat)
    requires |x| == 8 * n && k < n
    ensures Store(order, x, n)[BytePosition(order, n, k)] == ByteAt(x, k)
  {}

  lemma StoredBit(order: Order, x: Bits, n: nat, k: nat, j: nat)
    requires |x| == 8 * n && k < n && j < 8
    ensures Store(order, x, n)[BytePosition(order, n, k)][j] == x[8 * k + j]
  {
    StoredByte(order, x, n, k);
    assert ByteAt(x, k)[j] == x[8 * k + j];
  }

  lemma StoredAt(order: Order, x: Bits, n: nat, p: nat)
    requires |x| == 8 * n && p < 8 * n
    ensures Store(order, x, n)[BytePosition(order, n, ByteOf(p))][BitOf(p)] == x[p]
  {
    StoredBit(order, x, n, ByteOf(p), BitOf(p));
  }

  /** Loading what was stored gives the word back. */
  lemma LoadStore(order: Order, x: Bits, n: nat)
    requires |x| == 8 * n
    ensures Load(order, Store(order, x, n), 0, n) == x
  {
    forall i | 0 <= i < 8 * n
      ensures Load(order, Store(order, x, n), 0, n)[i] == x[i]
    {
      LoadedBit(order, Store(order, x, n), 0, n, i);
      StoredAt(order, x, n, i);
    }
  }

  /** Storing what was loaded gives the bytes back. */
  lemma StoreLoad(order: Order, m: seq<Octet>, at: nat, n: nat)
    requires at + n <= |m|
    ensures forall k :: 0 <= k < n ==> Store(order, Load(order, m, at, n), n)[k] == m[at + k]
  {
    forall k | 0 <= k < n
      ensures Store(order, Load(order, m, at, n), n)[k] == m[at + k]
    {
      ReloadedByte(order, m, at, n, BytePosition(order, n, k));
    }
  }

  lemma ReloadedByte(order: Order, m: seq<Octet>, at: nat, n: nat, k: nat)
    requires at + n <= |m| && k < n
    ensures ByteAt(Load(order, m, at, n), k) == m[at + BytePosition(order, n, k)]
  {
    forall j | 0 <= j < 8
      ensures ByteAt(Load(order, m, at, n), k)[j] == m[at + BytePosition(order, n, k)][j]
    {
      PositionUnique(k, j);
      LoadedBit(order, m, at, n, 8 * k + j);
    }
  }

  // ---------- The number bytes spell ----------

  /** The number that n bytes spell: little endian counts the first byte as the lowest, big
      endian the last. */
  ghost function BytesValue(order: Order, m: seq<Octet>, at: nat, n: nat): nat
    requires at + n <= |m|
    decreases n
  {
    if n == 0 then 0
    else if order.Little? then Value(m[at]) + 256 * BytesValue(order, m, at + 1, n - 1)
    else Value(m[at + n - 1]) + 256 * BytesValue(order, m, at, n - 1)
  }

  lemma LoadSplit(order: Order, m: seq<Octet>, at: nat, n: nat)
    requires at + n <= |m| && n > 0
    ensures var low: Bits := m[at + BytePosition(order, n, 0)];
            Load(order, m, at, n) == low + Load(order, m, if order.Little? then at + 1 else at, n - 1)
  {}

  /** A load is that number. */
  lemma {:induction false} LoadValue(order: Order, m: seq<Octet>, at: nat, n: nat)
    requires at + n <= |m|
    ensures Value(Load(order, m, at, n)) == BytesValue(order, m, at, n)
    decreases n
  {
    if n > 0 {
      var low: Bits := m[at + BytePosition(order, n, 0)];
      var next := if order.Little? then at + 1 else at;
      LoadValue(order, m, next, n - 1);
      LoadSplit(order, m, at, n);
      ValueConcat(low, Load(order, m, next, n - 1));
      assert Pow2(8) == 256;
    }
  }
}
