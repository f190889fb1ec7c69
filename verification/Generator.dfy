/** The data generator: writes blocks of 4096 bytes that each end in "Alpha", 256 blocks at a
    time, then the rest, and reports how many patterns it wrote. */
module Generator {
  import opened Pattern
  import opened Baseline

  const BLOCK_SIZE: nat := 4096
  const BLOCKS_PER_CHUNK: nat := 256
  const X: byte := 120

  /** b"x" * n */
  function Padding(n: nat): seq<byte> {
    seq(n, _ => X)
  }

  function Block(): (b: seq<byte>)
    ensures |b| == BLOCK_SIZE
  {
    Padding(BLOCK_SIZE - 5) + PATTERN
  }

  /** block * k */
  function Blocks(k: nat): (s: seq<byte>)
    ensures |s| == BLOCK_SIZE * k
  {
    if k == 0 then [] else Blocks(k - 1) + Block()
  }

  function Drop(s: seq<byte>, n: nat): seq<byte> {
    if n <= |s| then s[n..] else []
  }

  function Overwrite(s: seq<byte>, at: nat, data: seq<byte>): seq<byte>
    requires at <= |s|
  {
    s[..at] + data + Drop(s, at + |data|)
  }

  lemma DropBehind(out: seq<byte>, s: seq<byte>, n: nat)
    ensures Drop(out + Drop(s, |out|), |out| + n) == Drop(s, |out| + n)
  {}

  /** Writing behind what was written extends it, and uncovers nothing else. */
  lemma OverwriteExtends(out: seq<byte>, s: seq<byte>, data: seq<byte>)
    ensures Overwrite(out + Drop(s, |out|), |out|, data) == (out + data) + Drop(s, |out + data|)
  {
    var t := out + Drop(s, |out|);
    DropBehind(out, s, |data|);
    assert t[..|out|] == out;
    assert Drop(t, |out| + |data|) == Drop(s, |out + data|);
  }

  /** The file or device opened for writing. A regular file is emptied on opening; a block
      device keeps the bytes that are not written over. */
  class OutputFile {
    const isDevice: bool
    var contents: seq<byte>
    var position: nat
    ghost var original: seq<byte>  // what the open file held before the first write
    ghost var output: seq<byte>    // what has been written since

    ghost predicate Valid()
      reads this
    {
      position == |output| && contents == output + Drop(original, |output|)
    }

    constructor (isDevice: bool, contents: seq<byte>)
      ensures this.isDevice == isDevice && this.contents == contents
    {
      this.isDevice, this.contents, this.position := isDevice, contents, 0;
    }

    method Open()
      modifies this
      ensures Valid() && output == []
      ensures original == if isDevice then old(contents) else []
    {
      position := 0;
      if !isDevice {
        contents := [];
      }
      original, output := contents, [];
    }

    method Write(data: seq<byte>)
      requires Valid()
      modifies this
      ensures Valid() && output == old(output) + data && original == old(original)
      ensures position == old(position) + |data|
      ensures |contents| == if position > |old(contents)| then position else |old(contents)|
      ensures forall p :: 0 <= p < |contents| ==>
                contents[p] == if old(position) <= p < position then data[p - old(position)] else old(contents)[p]
    {
      OverwriteExtends(output, original, data);
      contents := Overwrite(contents, position, data);
      position := position + |data|;
      output := output + data;
    }
  }

  /** The whole output for n bytes, by position: inside full blocks the byte of the block,
      in the remainder padding. */
  function Generated(n: nat): seq<byte> {
    seq(n, p requires 0 <= p < n => if p / BLOCK_SIZE < n / BLOCK_SIZE then Block()[p % BLOCK_SIZE] else X)
  }

  lemma GeneratedAt(n: nat, p: nat)
    requires p < n
    ensures Generated(n)[p] == if p / BLOCK_SIZE < n / BLOCK_SIZE && p % BLOCK_SIZE >= BLOCK_SIZE - 5
                               then PATTERN[p % BLOCK_SIZE - (BLOCK_SIZE - 5)] else X
  {}

  lemma BlocksAppend(a: nat, b: nat)
    ensures Blocks(a + b) == Blocks(a) + Blocks(b)
  {
    if b == 0 {
      assert Blocks(a) + [] == Blocks(a);
    } else {
      BlocksAppend(a, b - 1);
      assert Blocks(a) + (Blocks(b - 1) + Block()) == (Blocks(a) + Blocks(b - 1)) + Block();
    }
  }

  lemma {:induction false} BlocksAt(k: nat, p: nat)
    requires p < BLOCK_SIZE * k
    ensures Blocks(k)[p] == Block()[p % BLOCK_SIZE]
  {
    if p < BLOCK_SIZE * (k - 1) {
      BlocksAt(k - 1, p);
    } else {
      assert p % BLOCK_SIZE == p - BLOCK_SIZE * (k - 1);
    }
  }

  /** The blocks and the remainder written one after the other are the closed form. */
  lemma WrittenIsGenerated(n: nat)
    ensures Blocks(n / BLOCK_SIZE) + Padding(n % BLOCK_SIZE) == Generated(n)
  {
    var k := n / BLOCK_SIZE;
    var s := Blocks(k) + Padding(n % BLOCK_SIZE);
    forall p | 0 <= p < n
      ensures s[p] == Generated(n)[p]
    {
      if p < BLOCK_SIZE * k {
        BlocksAt(k, p);
      }
    }
    assert |s| == n;
  }

  lemma BlockArithmetic(count: nat, rest: nat)
    ensures (BLOCK_SIZE * count + rest) / BLOCK_SIZE == count + rest / BLOCK_SIZE
    ensures (BLOCK_SIZE * count + rest) % BLOCK_SIZE == rest % BLOCK_SIZE
  {}

  lemma BlocksAreGenerated(count: nat)
    ensures Blocks(count) == Generated(BLOCK_SIZE * count)
  {
    BlockArithmetic(count, 0);
    WrittenIsGenerated(BLOCK_SIZE * count);
    assert Blocks(count) + Padding(0) == Blocks(count);
  }

  /** The character at position p of n generated bytes: "Alpha" at the end of each full block
      of 4096, 'x' everywhere else. */
  function TextAt(n: nat, p: nat): char {
    if p / 4096 < n / 4096 && p % 4096 >= 4091 then "Alpha"[p % 4096 - 4091] else 'x'
  }

  lemma GeneratedText(n: nat, p: nat)
    requires p < n
    ensures Generated(n)[p] as int == TextAt(n, p) as int
  {
    PatternIsAlpha();
    GeneratedAt(n, p);
    assert 'x' as int == 120;
  }

  /** What a file holds after n generated bytes were written over the given contents. */
  ghost predicate Holds(device: bool, before: seq<byte>, n: nat, after: seq<byte>) {
    && |after| == (if device && n < |before| then |before| else n)
    && (forall p :: n <= p < |after| ==> after[p] == before[p])
    && (forall p :: 0 <= p < n ==> after[p] as int == TextAt(n, p) as int)
  }

  lemma HoldsGenerated(device: bool, before: seq<byte>, n: nat)
    ensures Holds(device, before, n, Generated(n) + Drop(if device then before else [], n))
  {
    var after := Generated(n) + Drop(if device then before else [], n);
    forall p | 0 <= p < n
      ensures after[p] as int == TextAt(n, p) as int
    {
      GeneratedText(n, p);
    }
  }

  /** The end of the output, shorter than a chunk: the remaining blocks, then padding. */
  method WriteEnd(f: OutputFile, remaining: nat, written: nat, count: nat) returns (written': nat, count': nat)
    requires f.Valid() && f.output == Blocks(count) && written == BLOCK_SIZE * count
    modifies f
    ensures f.Valid() && f.original == old(f.original)
    ensures written' == written + remaining
    ensures count' == written' / BLOCK_SIZE
    ensures f.output == Generated(written')
  {
    written', count' := written, count;
    var blocks := remaining / BLOCK_SIZE;
    var padding := remaining % BLOCK_SIZE;
    if blocks > 0 {
      BlocksAppend(count, blocks);
      f.Write(Blocks(blocks));
      written' := written' + blocks * BLOCK_SIZE;
      count' := count' + blocks;
    }
    if padding > 0 {
      f.Write(Padding(padding));
      written' := written' + padding;
    }
    BlockArithmetic(count, remaining);
    WrittenIsGenerated(written');
    assert f.output == Blocks(count') + Padding(padding);
  }

  /** One full chunk of blocks. */
  method WriteChunk(f: OutputFile, written: nat, count: nat) returns (written': nat, count': nat)
    requires f.Valid() && f.output == Blocks(count) && written == BLOCK_SIZE * count
    modifies f
    ensures f.Valid() && f.original == old(f.original)
    ensures written' == written + BLOCKS_PER_CHUNK * BLOCK_SIZE == BLOCK_SIZE * count'
    ensures f.output == Blocks(count') == Generated(written')
  {
    BlocksAppend(count, BLOCKS_PER_CHUNK);
    f.Write(Blocks(BLOCKS_PER_CHUNK));
    written' := written + BLOCKS_PER_CHUNK * BLOCK_SIZE;
    count' := count + BLOCKS_PER_CHUNK;
    BlocksAreGenerated(count');
  }

  /** The loop of the generator: whole chunks while they fit, then the remaining blocks and
      the remaining padding. A target of 0 or less writes nothing. */
  method Generate(f: OutputFile, target: int) returns (written: nat, count: nat)
    modifies f
    ensures var n := if target < 0 then 0 else target;
            && written == n
            && count == n / 4096
            && f.contents == Generated(n) + (if f.isDevice && n < |old(f.contents)| then old(f.contents)[n..] else [])
            && Holds(f.isDevice, old(f.contents), n, f.contents)
  {
    f.Open();
    count, written := 0, 0;
    BlocksAreGenerated(0);
    while written < target
      invariant f.Valid() && f.original == if f.isDevice then old(f.contents) else []
      invariant written == BLOCK_SIZE * count
      invariant written <= if target < 0 then 0 else target
      invariant f.output == Blocks(count) == Generated(written)
    {
      var remaining := target - written;
      if remaining < BLOCKS_PER_CHUNK * BLOCK_SIZE {
        written, count := WriteEnd(f, remaining, written, count);
        break;
      } else {
        written, count := WriteChunk(f, written, count);
      }
    }
    BlockArithmetic(count, 0);
    HoldsGenerated(f.isDevice, old(f.contents), written);
  }

  // ---------- The patterns in the output ----------

  /** The pattern occurs in the output exactly at the last five bytes of each full block. */
  lemma GeneratedMatches(n: nat, i: nat)
    ensures MatchAt(PATTERN, Generated(n), i) <==> i % 4096 == 4091 && i / 4096 < n / 4096
  {
    if i % BLOCK_SIZE == BLOCK_SIZE - 5 && i / BLOCK_SIZE < n / BLOCK_SIZE {
      MatchAtBlockEnd(n, i);
    } else {
      NoMatchElsewhere(n, i);
    }
  }

  lemma MatchAtBlockEnd(n: nat, i: nat)
    requires i % BLOCK_SIZE == BLOCK_SIZE - 5 && i / BLOCK_SIZE < n / BLOCK_SIZE
    ensures MatchAt(PATTERN, Generated(n), i)
  {
    var g := Generated(n);
    assert i + 5 <= n;
    forall j | 0 <= j < 5
      ensures g[i + j] == PATTERN[j]
    {
      assert (i + j) % BLOCK_SIZE == BLOCK_SIZE - 5 + j && (i + j) / BLOCK_SIZE == i / BLOCK_SIZE;
      GeneratedAt(n, i + j);
    }
    assert g[i..i + 5] == PATTERN;
  }

  lemma NoMatchElsewhere(n: nat, i: nat)
    requires !(i % BLOCK_SIZE == BLOCK_SIZE - 5 && i / BLOCK_SIZE < n / BLOCK_SIZE)
    ensures !MatchAt(PATTERN, Generated(n), i)
  {
    MatchElement(PATTERN, Generated(n), i, 0);
    if i < n {
      GeneratedAt(n, i);
    }
  }

  /** No suffix of such a sequence is a proper prefix of the pattern. */
  ghost predicate EndsClean(s: seq<byte>) {
    s == [] || s[|s| - 1] == X || s[|s| - 1] == 97
  }

  /** Whatever follows, no occurrence straddles the end: counts add up. */
  lemma CountAfter(a: seq<byte>, b: seq<byte>)
    requires EndsClean(a)
    ensures Count(PATTERN, a + b) == Count(PATTERN, a) + Count(PATTERN, b)
  {
    forall i | 0 <= i < |a| < i + |PATTERN|
      ensures a[i..] != PATTERN[..|a| - i]
    {
      var j := |a| - i;
      assert a[i..][j - 1] == a[|a| - 1];
      assert PATTERN[..j][j - 1] == PATTERN[j - 1];
      assert PATTERN[j - 1] in {65, 108, 112, 104};
    }
    CountConcat(PATTERN, a, b);
  }

  lemma CountPadding(n: nat)
    ensures Count(PATTERN, Padding(n)) == 0
  {
    forall i | 0 <= i < n
      ensures !MatchAt(PATTERN, Padding(n), i)
    {
      MatchElement(PATTERN, Padding(n), i, 0);
    }
    CountNone(PATTERN, Padding(n), 0, n);
  }

  lemma CountOnce()
    ensures Count(PATTERN, PATTERN) == 1
  {
    assert PATTERN[0..5] == PATTERN;
    assert MatchAt(PATTERN, PATTERN, 0);
    CountNone(PATTERN, PATTERN, 1, 5);
  }

  lemma {:induction false} CountBlocks(k: nat)
    ensures Count(PATTERN, Blocks(k)) == k && EndsClean(Blocks(k))
  {
    if k > 0 {
      CountBlocks(k - 1);
      CountAfter(Blocks(k - 1), Block());
      CountAfter(Padding(BLOCK_SIZE - 5), PATTERN);
      CountPadding(BLOCK_SIZE - 5);
      CountOnce();
    }
  }

  /** The count the generator reports is the true count of its output, and it stays additive
      over anything that follows the output on the device. */
  lemma GeneratedCount(n: nat, rest: seq<byte>)
    ensures Count(PATTERN, Generated(n)) == n / 4096
    ensures Count(PATTERN, Generated(n) + rest) == n / 4096 + Count(PATTERN, rest)
  {
    var k, r := n / BLOCK_SIZE, n % BLOCK_SIZE;
    WrittenIsGenerated(n);
    CountBlocks(k);
    CountAfter(Blocks(k), Padding(r));
    CountPadding(r);
    assert EndsClean(Generated(n)) by {
      if r == 0 {
        assert Generated(n) == Blocks(k);
      }
    }
    CountAfter(Generated(n), rest);
  }
}
