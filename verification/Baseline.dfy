/** The counter: reads a file through a fixed buffer, scans every window greedily and carries
    the last bytes of the window over to the next read. */
module Baseline {
  import Words
  import opened Pattern

  newtype byte = b: int | 0 <= b < 256

  const CHUNK_SIZE_BYTES: nat := 64 * 1024
  const PATTERN: seq<byte> := [65, 108, 112, 104, 97]  // "Alpha"
  const U64: int := 0x1_0000_0000_0000_0000

  /** What the program reports: the count it prints, or that a read failed. */
  datatype Outcome = Counted(count: nat) | ReadFailed

  /** An open file descriptor: what is left of the byte stream, how many reads were made, and
      which of them fail, a fact about the file that no program chooses. */
  class InputFile {
    const fails: nat -> bool
    var unread: seq<byte>
    var calls: nat

    constructor (stream: seq<byte>, fails: nat -> bool)
      ensures unread == stream && calls == 0 && this.fails == fails
    {
      this.unread, this.calls, this.fails := stream, 0, fails;
    }

    /** The system call: a negative number exactly when this read fails; else any length from
        1 to n may come back, 0 only at the end of the stream (or when nothing was asked for). */
    method Read(buf: array<byte>, offset: nat, n: nat) returns (got: int)
      requires offset + n <= buf.Length
      modifies this, buf
      ensures calls == old(calls) + 1
      ensures got < 0 <==> fails(old(calls))
      ensures got <= n
      ensures got == 0 <==> got >= 0 && (n == 0 || old(unread) == [])
      ensures got == 0 ==> unread == old(unread) && buf[..] == old(buf[..])
      ensures got > 0 ==> got <= |old(unread)| && unread == old(unread)[got..]
      ensures got > 0 ==>
                && buf[..offset + got] == old(buf[..offset]) + old(unread)[..got]
                && forall k :: offset + got <= k < buf.Length ==> buf[k] == old(buf[k])
    {
      calls := calls + 1;
      if fails(calls - 1) {
        return -1;
      }
      if n == 0 || unread == [] {
        return 0;
      }
      got :| 1 <= got <= n && got <= |unread|;
      forall k | 0 <= k < got {
        buf[offset + k] := unread[k];
      }
      unread := unread[got..];
    }
  }

  /** The value a 64-bit unsigned counter holds after x increments from 0. */
  function Wrap(x: nat): nat {
    x % U64
  }

  lemma WrapIncrement(x: nat)
    ensures Wrap(Wrap(x) + 1) == Wrap(x + 1)
  {}

  /** memcmp(buffer + at, pattern, |pattern|) == 0, inside the first len bytes of the buffer. */
  method SameBytes(buffer: array<byte>, ghost len: nat, at: nat, pattern: seq<byte>) returns (same: bool)
    requires at + |pattern| <= len <= buffer.Length
    ensures same <==> MatchAt(pattern, buffer[..len], at)
  {
    ghost var w := buffer[..len];
    var k := 0;
    while k < |pattern|
      invariant k <= |pattern|
      invariant w[at..at + k] == pattern[..k]
    {
      if buffer[at + k] != pattern[k] {
        assert w[at..at + |pattern|][k] != pattern[k];
        return false;
      }
      assert w[at..at + k + 1] == w[at..at + k] + [w[at + k]];
      assert pattern[..k + 1] == pattern[..k] + [pattern[k]];
      k := k + 1;
    }
    return true;
  }

  /** memmove(buffer, buffer + from, n): the regions may overlap. */
  method MoveToFront(buffer: array<byte>, from: nat, n: nat)
    requires from + n <= buffer.Length
    modifies buffer
    ensures buffer[..n] == old(buffer[from..from + n])
    ensures forall k :: n <= k < buffer.Length ==> buffer[k] == old(buffer[k])
  {
    forall k | 0 <= k < n {
      buffer[k] := buffer[from + k];
    }
  }

  /** What holds at the head of the inner loop: the scan from ptr on adds what is missing. */
  ghost predicate ScanState(p: seq<byte>, w: seq<byte>, ptr: nat, found: nat, compares: nat)
    requires p != []
  {
    var whole, rest := GreedyScan(p, w, 0), GreedyScan(p, w, ptr);
    whole == Scan(found + rest.matches, compares + rest.compares)
  }

  lemma ScanStep(p: seq<byte>, w: seq<byte>, ptr: nat, found: nat, compares: nat, same: bool)
    requires p != [] && ptr + |p| <= |w| && ScanState(p, w, ptr, found, compares)
    requires same == MatchAt(p, w, ptr)
    ensures same ==> ScanState(p, w, ptr + |p|, found + 1, compares + 1)
    ensures !same ==> ScanState(p, w, ptr + 1, found, compares + 1)
  {}

  lemma ScanEnd(p: seq<byte>, w: seq<byte>, ptr: nat, found: nat, compares: nat)
    requires p != [] && ptr + |p| > |w| && ScanState(p, w, ptr, found, compares)
    ensures GreedyScan(p, w, 0) == Scan(found, compares)
  {}

  /** The inner loop over one window, the first len bytes of the buffer. The 64-bit count
      stands for the true number sum. */
  method ScanWindow(buffer: array<byte>, len: nat, pattern: seq<byte>, count: nat, ghost sum: nat)
    returns (total: nat, ghost compares: nat)
    requires 0 < |pattern| <= len <= buffer.Length
    requires count == Wrap(sum)
    ensures total == Wrap(sum + GreedyScan(pattern, buffer[..len], 0).matches)
    ensures compares == GreedyScan(pattern, buffer[..len], 0).compares
  {
    ghost var w := buffer[..len];
    total, compares := count, 0;
    var ptr := 0;
    var limit := len - |pattern| + 1;
    ghost var found := 0;
    while ptr < limit
      invariant ScanState(pattern, w, ptr, found, compares)
      invariant total == Wrap(sum + found)
      decreases len - ptr
    {
      var same := SameBytes(buffer, len, ptr, pattern);
      ScanStep(pattern, w, ptr, found, compares, same);
      compares := compares + 1;
      if same {
        WrapIncrement(sum + found);
        total, found := Wrap(total + 1), found + 1;
        ptr := ptr + |pattern|;
      } else {
        ptr := ptr + 1;
      }
    }
    ScanEnd(pattern, w, ptr, found, compares);
  }

  /** What one pass of the outer loop does with a window of len bytes: a short window is kept
      whole, any other is scanned and its last |pattern| - 1 bytes move to the front. */
  method HandleWindow(buffer: array<byte>, len: nat, pattern: seq<byte>, count: nat, ghost sum: nat)
    returns (offset: nat, total: nat, ghost compares: nat)
    requires 0 < |pattern| && len <= buffer.Length && count == Wrap(sum)
    modifies buffer
    ensures var s := Window(pattern, old(buffer[..len]));
            && offset == |s.tail| <= buffer.Length && buffer[..offset] == s.tail
            && total == Wrap(sum + s.total)
            && compares == s.compares
  {
    ghost var w := buffer[..len];
    if len < |pattern| {
      return len, count, 0;
    }
    total, compares := ScanWindow(buffer, len, pattern, count, sum);
    var overlap := |pattern| - 1;
    var keep := if len < overlap then len else overlap;
    MoveToFront(buffer, len - keep, keep);
    offset := keep;
    assert buffer[..keep] == w[len - keep..];
  }

  /** The head of the outer loop and one pass through it: read behind the kept bytes, then
      handle the window they form with the new ones. */
  method ReadAndHandle(
    file: InputFile, buffer: array<byte>, pattern: seq<byte>, offset: nat, count: nat, ghost sum: nat)
    returns (got: int, next: nat, total: nat, ghost compares: nat)
    requires 0 < |pattern| <= buffer.Length && offset < |pattern| && count == Wrap(sum)
    modifies file, buffer
    ensures file.calls == old(file.calls) + 1
    ensures got < 0 <==> file.fails(old(file.calls))
    ensures got == 0 ==> old(file.unread) == file.unread == [] && total == count
    ensures got > 0 ==> got <= |old(file.unread)| && offset + got <= buffer.Length
    ensures got > 0 ==> file.unread == old(file.unread)[got..]
    ensures got > 0 ==>
              var w := Window(pattern, old(buffer[..offset]) + old(file.unread)[..got]);
              && next == |w.tail| < |pattern| && buffer[..next] == w.tail
              && total == Wrap(sum + w.total)
              && compares == w.compares
  {
    next, total, compares := offset, count, 0;
    got := file.Read(buffer, offset, buffer.Length - offset);
    if got > 0 {
      var len: nat := offset + got;
      next, total, compares := HandleWindow(buffer, len, pattern, count, sum);
    }
  }

  /** What holds at the head of the outer loop: the stream is what was consumed, in pieces h,
      and what is unread; the front of the buffer is the tail kept by the run so far; the
      counters are the run's totals. */
  ghost predicate LoopState(
    pattern: seq<byte>, size: nat, stream: seq<byte>, unread: seq<byte>,
    h: Reads<byte>, kept: seq<byte>, total: nat, compares: nat)
    requires pattern != []
  {
    && Consumed(h) + unread == stream
    && Feasible(pattern, size, h)
    && kept == RunReads(pattern, h).tail
    && |kept| < |pattern|
    && total == Wrap(RunReads(pattern, h).total)
    && compares == RunReads(pattern, h).compares
  }

  lemma ConsumeMore<T>(a: seq<T>, s: seq<T>, n: nat)
    requires n <= |s|
    ensures (a + s[..n]) + s[n..] == a + s
  {}

  lemma LoopStep(
    pattern: seq<byte>, size: nat, stream: seq<byte>, unread: seq<byte>,
    h: Reads<byte>, kept: seq<byte>, total: nat, compares: nat, got: nat)
    requires pattern != []
    requires LoopState(pattern, size, stream, unread, h, kept, total, compares)
    requires 0 < got <= |unread| && |kept| + got <= size
    ensures var w := Window(pattern, kept + unread[..got]);
            LoopState(pattern, size, stream, unread[got..], Then(h, unread[..got]),
                      w.tail, Wrap(RunReads(pattern, h).total + w.total), compares + w.compares)
  {
    var chunk := unread[..got];
    var w := Window(pattern, kept + chunk);
    WindowKeepsSuffix(pattern, kept + chunk);
    ConsumeMore(Consumed(h), unread, got);
  }

  lemma LoopBound(pattern: seq<byte>, size: nat, stream: seq<byte>, unread: seq<byte>, h: Reads<byte>)
    requires pattern != [] && Feasible(pattern, size, h) && Consumed(h) + unread == stream
    ensures h.Length() <= |stream|
  {
    ReadsBound(pattern, size, h);
    assert |stream| == |Consumed(h)| + |unread|;
  }

  /** At every loop head the 64-bit counter holds the true number of matches, as long as less
      than 2^64 pattern lengths were consumed. */
  lemma LoopHeadExact(
    pattern: seq<byte>, size: nat, stream: seq<byte>, unread: seq<byte>,
    h: Reads<byte>, kept: seq<byte>, total: nat, compares: nat)
    requires pattern != [] && NoBorder(pattern)
    requires LoopState(pattern, size, stream, unread, h, kept, total, compares)
    requires |Consumed(h)| < |pattern| * U64
    ensures total == Count(pattern, Consumed(h))
  {
    RunCountsExactly(pattern, size, h);
    RunRoom(pattern, size, h);
    BelowQuotient(|pattern|, RunReads(pattern, h).total, U64);
  }

  lemma BelowQuotient(k: nat, x: nat, y: nat)
    ensures k * x < k * y ==> x < y
  {
    if x >= y {
      assert k * x >= k * y;
    }
  }

  lemma LoopExit(
    pattern: seq<byte>, size: nat, stream: seq<byte>,
    h: Reads<byte>, kept: seq<byte>, total: nat, compares: nat)
    requires pattern != []
    requires LoopState(pattern, size, stream, [], h, kept, total, compares)
    ensures Consumed(h) == stream
    ensures NoOverlapWithin(pattern, size) ==> total == Wrap(Count(pattern, stream))
  {
    assert Consumed(h) + [] == Consumed(h);
    if NoOverlapWithin(pattern, size) {
      RunCountsExactly(pattern, size, h);
    }
  }

  /** The outer loop. The ghost results say how the stream was cut into reads and how many
      comparisons were made; the count is a 64-bit unsigned number. The loop reads until a
      read fails or the stream ends, and reports a failure exactly in the first case. */
  method CountPattern(file: InputFile, buffer: array<byte>, pattern: seq<byte>)
    returns (r: Outcome, ghost h: Reads<byte>, ghost compares: nat)
    requires 0 < |pattern| <= buffer.Length
    modifies file, buffer
    ensures file.calls == old(file.calls) + h.Length() + 1 && h.Length() <= |old(file.unread)|
    ensures r.ReadFailed? <==> file.fails(file.calls - 1)
    ensures forall k: nat :: old(file.calls) <= k < file.calls - 1 ==> !file.fails(k)
    ensures Feasible(pattern, buffer.Length, h)
    ensures r.Counted? ==> Consumed(h) == old(file.unread) && file.unread == []
    ensures r.Counted? ==> r.count == Wrap(RunReads(pattern, h).total)
    ensures r.Counted? && NoOverlapWithin(pattern, buffer.Length) ==>
              r.count == Wrap(Count(pattern, old(file.unread)))
    ensures compares == RunReads(pattern, h).compares
  {
    ghost var stream, kept: seq<byte> := file.unread, [];
    var offset: nat, total: nat := 0, 0;
    h, compares := Start, 0;
    while true
      invariant offset < |pattern| <= buffer.Length
      invariant buffer[..offset] == kept
      invariant LoopState(pattern, buffer.Length, stream, file.unread, h, kept, total, compares)
      invariant file.calls == old(file.calls) + h.Length()
      invariant forall k: nat :: old(file.calls) <= k < file.calls ==> !file.fails(k)
      decreases |file.unread|
    {
      ghost var left, count, sum := file.unread, total, RunReads(pattern, h).total;
      var got;
      ghost var made;
      got, offset, total, made := ReadAndHandle(file, buffer, pattern, offset, total, sum);
      if got <= 0 {
        LoopBound(pattern, buffer.Length, stream, left, h);
      }
      if got < 0 {
        return ReadFailed, h, compares;
      }
      if got == 0 {
        LoopExit(pattern, buffer.Length, stream, h, kept, total, compares);
        break;
      }
      LoopStep(pattern, buffer.Length, stream, left, h, kept, count, compares, got);
      h, kept, compares := Then(h, left[..got]), buffer[..offset], compares + made;
    }
    r := Counted(total);
  }

  /** "Alpha" overlaps itself nowhere. */
  lemma PatternHasNoBorder()
    ensures NoBorder(PATTERN)
  {
    forall b
      ensures !Border(PATTERN, b)
    {
      if 0 < b < 5 {
        assert PATTERN[..b][0] == 65;
        assert PATTERN[5 - b..][0] != 65;
      }
    }
  }

  lemma PatternIsAlpha()
    ensures |PATTERN| == |"Alpha"|
    ensures forall j :: 0 <= j < |"Alpha"| ==> PATTERN[j] as int == "Alpha"[j] as int
  {
    assert "Alpha"[0] as int == 65 && "Alpha"[1] as int == 108 && "Alpha"[2] as int == 112;
    assert "Alpha"[3] as int == 104 && "Alpha"[4] as int == 97;
  }

  lemma PowSquare(n: nat, x: nat)
    requires Words.Pow2(n) == x
    ensures Words.Pow2(n + n) == x * x
  {
    Words.PowAdd(n, n);
  }

  /** The counter is as wide as a uint64_t. */
  lemma CounterWidth()
    ensures U64 == Words.Pow2(64)
  {
    assert Words.Pow2(4) == 16;
    PowSquare(4, 16);
    PowSquare(8, 0x100);
    PowSquare(16, 0x1_0000);
    PowSquare(32, 0x1_0000_0000);
  }

  ghost predicate AlphaHere(s: seq<byte>, i: int) {
    0 <= i <= |s| - 5 && forall j :: 0 <= j < 5 ==> s[i + j] as int == "Alpha"[j] as int
  }

  /** Where the text "Alpha" stands in a byte stream. */
  ghost function Alphas(s: seq<byte>): set<int> {
    set i | 0 <= i <= |s| - 5 && AlphaHere(s, i)
  }

  lemma AlphaAt(s: seq<byte>, i: int)
    ensures AlphaHere(s, i) <==> MatchAt(PATTERN, s, i)
  {
    PatternIsAlpha();
    if 0 <= i <= |s| - 5 {
      var w := s[i..i + 5];
      assert forall j :: 0 <= j < 5 ==> w[j] == s[i + j];
      if AlphaHere(s, i) {
        assert forall j :: 0 <= j < 5 ==> w[j] as int == "Alpha"[j] as int;
        assert w == PATTERN;
      }
      if w == PATTERN {
        assert forall j :: 0 <= j < 5 ==> s[i + j] as int == "Alpha"[j] as int;
      }
    }
  }

  lemma AlphasCounted(s: seq<byte>)
    ensures Count(PATTERN, s) == |Alphas(s)|
  {
    CountIsCardinality(PATTERN, s, 0, |s|);
    forall i: int
      ensures i in Alphas(s) <==> i in Occurrences(PATTERN, s, 0, |s|)
    {
      AlphaAt(s, i);
    }
    assert Alphas(s) == Occurrences(PATTERN, s, 0, |s|);
  }

  /** The whole program on one file. It reports a failure exactly when its last read fails;
      otherwise it prints the number of places where "Alpha" stands, as a uint64_t. */
  method CountAlpha(file: InputFile) returns (r: Outcome, ghost compares: nat)
    modifies file
    ensures old(file.calls) < file.calls <= old(file.calls) + |old(file.unread)| + 1
    ensures r.ReadFailed? <==> file.fails(file.calls - 1)
    ensures forall k: nat :: old(file.calls) <= k < file.calls - 1 ==> !file.fails(k)
    ensures r.Counted? ==> r.count == |Alphas(old(file.unread))| % 0x1_0000_0000_0000_0000
    ensures r.Counted? && |old(file.unread)| < 5 * 0x1_0000_0000_0000_0000 ==>
              r.count == |Alphas(old(file.unread))|
    ensures r.Counted? ==>
              var n := |old(file.unread)|;
              if n < 5 then compares == 0
              else n - 4 - 4 * |Alphas(old(file.unread))| <= compares <= n - 4
  {
    ghost var stream := file.unread;
    var buffer := new byte[CHUNK_SIZE_BYTES];
    ghost var h;
    PatternHasNoBorder();
    r, h, compares := CountPattern(file, buffer, PATTERN);
    if r.Counted? {
      RunCountsExactly(PATTERN, buffer.Length, h);
      RunWork(PATTERN, h);
      CountRoom(PATTERN, stream, 0);
      AlphasCounted(stream);
    }
  }
}
