/** Occurrences of a pattern, the greedy scan of one window, and the carried-tail run over a
    sequence of reads. Everything here is generic in the element type and in the pattern. */
module Pattern {

  // ---------- Occurrences ----------

  ghost predicate MatchAt<T>(p: seq<T>, s: seq<T>, i: int) {
    0 <= i <= |s| - |p| && s[i..i + |p|] == p
  }

  /** The number of occurrences of p in s that start in [lo, hi). */
  ghost function CountIn<T>(p: seq<T>, s: seq<T>, lo: int, hi: int): nat
    decreases hi - lo
  {
    if lo >= hi then 0 else (if MatchAt(p, s, lo) then 1 else 0) + CountIn(p, s, lo + 1, hi)
  }

  ghost function Count<T>(p: seq<T>, s: seq<T>): nat {
    CountIn(p, s, 0, |s|)
  }

  ghost function Occurrences<T>(p: seq<T>, s: seq<T>, lo: int, hi: int): set<int> {
    set i | lo <= i < hi && MatchAt(p, s, i)
  }

  /** The recursive count is the size of the set of starting positions. */
  lemma {:induction false} CountIsCardinality<T>(p: seq<T>, s: seq<T>, lo: int, hi: int)
    ensures CountIn(p, s, lo, hi) == |Occurrences(p, s, lo, hi)|
    decreases hi - lo
  {
    if lo >= hi {
      assert Occurrences(p, s, lo, hi) == {};
    } else {
      CountIsCardinality(p, s, lo + 1, hi);
      var rest := Occurrences(p, s, lo + 1, hi);
      assert Occurrences(p, s, lo, hi) == if MatchAt(p, s, lo) then {lo} + rest else rest;
    }
  }

  lemma {:induction false} CountSplit<T>(p: seq<T>, s: seq<T>, lo: int, mid: int, hi: int)
    requires lo <= mid <= hi
    ensures CountIn(p, s, lo, hi) == CountIn(p, s, lo, mid) + CountIn(p, s, mid, hi)
    decreases mid - lo
  {
    if lo < mid {
      CountSplit(p, s, lo + 1, mid, hi);
    }
  }

  /** Ranges that match at the same places, up to a shift, have the same count. */
  lemma {:induction false} CountShift<T>(p: seq<T>, s: seq<T>, t: seq<T>, lo: int, hi: int, k: int)
    requires forall i :: lo <= i < hi ==> MatchAt(p, s, i) == MatchAt(p, t, i + k)
    ensures CountIn(p, s, lo, hi) == CountIn(p, t, lo + k, hi + k)
    decreases hi - lo
  {
    if lo < hi {
      assert MatchAt(p, s, lo) == MatchAt(p, t, lo + k);
      CountShift(p, s, t, lo + 1, hi, k);
    }
  }

  lemma {:induction false} CountNone<T>(p: seq<T>, s: seq<T>, lo: int, hi: int)
    requires forall i :: lo <= i < hi ==> !MatchAt(p, s, i)
    ensures CountIn(p, s, lo, hi) == 0
    decreases hi - lo
  {
    if lo < hi {
      CountNone(p, s, lo + 1, hi);
    }
  }

  /** No occurrence starts in the last |p| - 1 positions, nor past the end. */
  lemma CountTrim<T>(p: seq<T>, s: seq<T>, lo: int, hi: int)
    requires p != [] && lo <= |s| - |p| + 1 <= hi
    ensures CountIn(p, s, lo, hi) == CountIn(p, s, lo, |s| - |p| + 1)
  {
    CountSplit(p, s, lo, |s| - |p| + 1, hi);
    CountNone(p, s, |s| - |p| + 1, hi);
  }

  lemma CountShort<T>(p: seq<T>, s: seq<T>)
    requires |s| < |p|
    ensures Count(p, s) == 0
  {
    CountNone(p, s, 0, |s|);
  }

  lemma MatchElement<T>(p: seq<T>, s: seq<T>, i: nat, k: nat)
    requires k < |p|
    ensures MatchAt(p, s, i) ==> s[i + k] == p[k]
  {
    if MatchAt(p, s, i) {
      assert s[i + k] == s[i..i + |p|][k];
    }
  }

  lemma MatchInPrefix<T>(p: seq<T>, c: seq<T>, d: seq<T>, i: nat)
    requires i + |p| <= |c|
    ensures MatchAt(p, c, i) == MatchAt(p, c + d, i)
  {
    assert (c + d)[i..i + |p|] == c[i..i + |p|];
  }

  lemma MatchInSuffix<T>(p: seq<T>, s: seq<T>, k: nat, i: nat)
    requires k <= |s|
    ensures MatchAt(p, s[k..], i) == MatchAt(p, s, i + k)
  {
    if i + k + |p| <= |s| {
      assert s[k..][i..i + |p|] == s[i + k..i + k + |p|];
    }
  }

  lemma CountSuffix<T>(p: seq<T>, s: seq<T>, k: nat)
    requires k <= |s|
    ensures Count(p, s[k..]) == CountIn(p, s, k, |s|)
  {
    forall i | 0 <= i < |s| - k
      ensures MatchAt(p, s[k..], i) == MatchAt(p, s, i + k)
    {
      MatchInSuffix(p, s, k, i);
    }
    CountShift(p, s[k..], s, 0, |s| - k, k);
  }

  lemma Straddle<T>(p: seq<T>, a: seq<T>, b: seq<T>, i: nat)
    requires i < |a| < i + |p|
    ensures MatchAt(p, a + b, i) ==> a[i..] == p[..|a| - i]
  {
    if MatchAt(p, a + b, i) {
      assert a[i..] == (a + b)[i..i + |p|][..|a| - i];
    }
  }

  /** If no nonempty suffix of a is a proper prefix of p, counts add up over concatenation. */
  lemma CountConcat<T>(p: seq<T>, a: seq<T>, b: seq<T>)
    requires p != []
    requires forall i :: 0 <= i < |a| < i + |p| ==> a[i..] != p[..|a| - i]
    ensures Count(p, a + b) == Count(p, a) + Count(p, b)
  {
    var s := a + b;
    CountSplit(p, s, 0, |a|, |s|);
    forall i | 0 <= i < |a|
      ensures MatchAt(p, a, i) == MatchAt(p, s, i + 0)
    {
      if i + |p| <= |a| {
        MatchInPrefix(p, a, b, i);
      } else {
        Straddle(p, a, b, i);
      }
    }
    CountShift(p, a, s, 0, |a|, 0);
    assert s[|a|..] == b;
    CountSuffix(p, s, |a|);
  }

  // ---------- Borders ----------

  /** A border is a nonempty proper prefix that is also a suffix. */
  ghost predicate Border<T>(p: seq<T>, b: int) {
    0 < b < |p| && p[..b] == p[|p| - b..]
  }

  /** No two overlapping occurrences of p fit into size elements: the pattern laid over itself
      at border b has length 2|p| - b. */
  ghost predicate NoOverlapWithin<T>(p: seq<T>, size: int) {
    forall b :: Border(p, b) ==> size < 2 * |p| - b
  }

  ghost predicate NoBorder<T>(p: seq<T>) {
    forall b :: !Border(p, b)
  }

  lemma OverlapIsBorder<T>(p: seq<T>, s: seq<T>, i: int, j: int)
    requires MatchAt(p, s, i) && MatchAt(p, s, j) && i < j < i + |p|
    ensures Border(p, |p| - (j - i))
  {
    var b := |p| - (j - i);
    assert p[..b] == s[j..j + |p|][..b] == s[j..j + b];
    assert p[|p| - b..] == s[i..i + |p|][|p| - b..] == s[j..j + b];
  }

  /** Occurrences of a pattern without a border never share an element. */
  lemma {:induction false} CountRoom<T>(p: seq<T>, s: seq<T>, lo: nat)
    requires p != [] && NoBorder(p) && lo <= |s|
    ensures |p| * CountIn(p, s, lo, |s|) <= |s| - lo
    decreases |s| - lo
  {
    if lo < |s| {
      if MatchAt(p, s, lo) {
        SkipAfterMatch(p, s, lo, |s|);
        CountRoom(p, s, lo + |p|);
        TimesSum(|p|, 1, CountIn(p, s, lo + |p|, |s|));
      } else {
        CountRoom(p, s, lo + 1);
      }
    }
  }

  /** After a match, nothing is lost by resuming |p| further on, if no overlap fits into s. */
  lemma SkipAfterMatch<T>(p: seq<T>, s: seq<T>, i: nat, hi: int)
    requires p != [] && MatchAt(p, s, i) && i + |p| <= hi
    requires NoOverlapWithin(p, |s|)
    ensures CountIn(p, s, i, hi) == 1 + CountIn(p, s, i + |p|, hi)
  {
    forall j | i + 1 <= j < i + |p|
      ensures !MatchAt(p, s, j)
    {
      if MatchAt(p, s, j) {
        OverlapIsBorder(p, s, i, j);
      }
    }
    CountNone(p, s, i + 1, i + |p|);
    CountSplit(p, s, i + 1, i + |p|, hi);
  }

  // ---------- The greedy scan of one window ----------

  /** What one scan finds, and how many comparisons it makes. */
  datatype Scan = Scan(matches: nat, compares: nat)

  ghost function GreedyScan<T>(p: seq<T>, w: seq<T>, i: nat): Scan
    requires p != []
    decreases |w| - i
  {
    if i + |p| > |w| then
      Scan(0, 0)
    else if MatchAt(p, w, i) then
      var rest := GreedyScan(p, w, i + |p|);
      Scan(rest.matches + 1, rest.compares + 1)
    else
      var rest := GreedyScan(p, w, i + 1);
      Scan(rest.matches, rest.compares + 1)
  }

  /** The greedy scan misses nothing in a window too short for two overlapping occurrences. */
  lemma {:induction false} GreedyFindsAll<T>(p: seq<T>, w: seq<T>, i: nat)
    requires p != [] && NoOverlapWithin(p, |w|)
    ensures GreedyScan(p, w, i).matches == CountIn(p, w, i, |w|)
    decreases |w| - i
  {
    if i + |p| > |w| {
      CountNone(p, w, i, |w|);
    } else if MatchAt(p, w, i) {
      SkipAfterMatch(p, w, i, |w|);
      GreedyFindsAll(p, w, i + |p|);
    } else {
      GreedyFindsAll(p, w, i + 1);
    }
  }

  /** Whatever the pattern, a window that holds an occurrence is never reported empty. */
  lemma {:induction false} GreedyFindsSome<T>(p: seq<T>, w: seq<T>, i: nat, j: nat)
    requires p != [] && i <= j && MatchAt(p, w, j)
    ensures GreedyScan(p, w, i).matches >= 1
    decreases |w| - i
  {
    if !MatchAt(p, w, i) {
      GreedyFindsSome(p, w, i + 1, j);
    }
  }

  lemma TimesSum(k: int, x: int, y: int)
    ensures k * (x + y) == k * x + k * y
  {}

  ghost function Starts(m: nat, n: int): nat {
    if n < m then 0 else n - m + 1
  }

  /** Every start position is either compared or one of the |p| - 1 skipped by a match. */
  lemma {:induction false} GreedyWork<T>(p: seq<T>, w: seq<T>, i: nat)
    requires p != []
    ensures var g := GreedyScan(p, w, i);
            g.compares <= Starts(|p|, |w| - i) <= g.compares + (|p| - 1) * g.matches
    decreases |w| - i
  {
    if i + |p| > |w| {
    } else if MatchAt(p, w, i) {
      GreedyWork(p, w, i + |p|);
      TimesSum(|p| - 1, GreedyScan(p, w, i + |p|).matches, 1);
    } else {
      GreedyWork(p, w, i + 1);
    }
  }

  // ---------- The run over a sequence of reads ----------

  /** The state carried from one read to the next: the kept tail and the running totals. */
  datatype Run<T> = Run(tail: seq<T>, total: nat, compares: nat)

  /** One window on its own: too short, it is only kept; else it is scanned and its last
      |p| - 1 elements are kept. */
  ghost function Window<T>(p: seq<T>, w: seq<T>): Run<T>
    requires p != []
  {
    if |w| < |p| then
      Run(w, 0, 0)
    else
      var g := GreedyScan(p, w, 0);
      Run(w[|w| - (|p| - 1)..], g.matches, g.compares)
  }

  /** One read: the window is the kept tail followed by the new chunk. */
  ghost function Step<T>(p: seq<T>, st: Run<T>, chunk: seq<T>): Run<T>
    requires p != []
  {
    var r := Window(p, st.tail + chunk);
    Run(r.tail, st.total + r.total, st.compares + r.compares)
  }

  /** The reads made so far, the last one outermost. */
  datatype Reads<T> = Start | Then(before: Reads<T>, chunk: seq<T>)
  {
    function Length(): nat {
      if this.Start? then 0 else before.Length() + 1
    }
  }

  ghost function RunReads<T>(p: seq<T>, h: Reads<T>): Run<T>
    requires p != []
  {
    match h
    case Start => Run([], 0, 0)
    case Then(before, chunk) => Step(p, RunReads(p, before), chunk)
  }

  /** The part of the stream the reads have consumed. */
  ghost function Consumed<T>(h: Reads<T>): seq<T> {
    match h
    case Start => []
    case Then(before, chunk) => Consumed(before) + chunk
  }

  /** The reads that can happen with a buffer of size elements: each returns something and
      fits behind the tail kept so far. */
  ghost predicate Feasible<T>(p: seq<T>, size: nat, h: Reads<T>)
    requires p != []
  {
    match h
    case Start => true
    case Then(before, chunk) =>
      && Feasible(p, size, before)
      && 0 < |chunk| <= size - |RunReads(p, before).tail|
  }

  ghost function Suffix<T>(s: seq<T>, n: nat): seq<T> {
    if |s| <= n then s else s[|s| - n..]
  }

  lemma WindowKeepsSuffix<T>(p: seq<T>, w: seq<T>)
    requires p != []
    ensures Window(p, w).tail == Suffix(w, |p| - 1)
    ensures |Window(p, w).tail| < |p|
  {
    if |w| == |p| - 1 {
      assert w[0..] == w;
    }
  }

  lemma SuffixStep<T>(c: seq<T>, d: seq<T>, n: nat)
    ensures Suffix(Suffix(c, n) + d, n) == Suffix(c + d, n)
  {
    if |c| > n {
      assert Suffix(c, n) + d == (c + d)[|c| - n..];
    }
  }

  lemma TailStep<T>(p: seq<T>, st: Run<T>, c: seq<T>, chunk: seq<T>)
    requires p != [] && st.tail == Suffix(c, |p| - 1)
    ensures Step(p, st, chunk).tail == Suffix(c + chunk, |p| - 1)
    ensures |Step(p, st, chunk).tail| < |p|
  {
    WindowKeepsSuffix(p, st.tail + chunk);
    SuffixStep(c, chunk, |p| - 1);
  }

  /** The kept tail is the last min(|p| - 1, consumed) elements of what was consumed, so a
      buffer that holds one pattern always has room for the next read. */
  lemma {:induction false} TailIsSuffix<T>(p: seq<T>, h: Reads<T>)
    requires p != []
    ensures RunReads(p, h).tail == Suffix(Consumed(h), |p| - 1)
    ensures |RunReads(p, h).tail| < |p|
  {
    if h.Then? {
      var before, chunk := h.before, h.chunk;
      TailIsSuffix(p, before);
      TailStep(p, RunReads(p, before), Consumed(before), chunk);
    }
  }

  /** Occurrences that end inside c are the ones c + d has among its first start positions. */
  lemma CountPrefix<T>(p: seq<T>, c: seq<T>, d: seq<T>)
    requires p != []
    ensures CountIn(p, c + d, 0, Starts(|p|, |c|)) == Count(p, c)
  {
    var k := Starts(|p|, |c|);
    forall i | 0 <= i < k
      ensures MatchAt(p, c, i) == MatchAt(p, c + d, i + 0)
    {
      MatchInPrefix(p, c, d, i);
    }
    CountShift(p, c, c + d, 0, k, 0);
    if |c| < |p| {
      CountShort(p, c);
    } else {
      CountTrim(p, c, 0, |c|);
    }
  }

  /** One read, when the tail is a suffix of what was consumed: the window's start positions
      are exactly the ones the consumed stream could not decide yet. */
  lemma WindowCount<T>(p: seq<T>, c: seq<T>, chunk: seq<T>)
    requires p != []
    requires |Suffix(c, |p| - 1) + chunk| >= |p|
    ensures Count(p, c + chunk) == Count(p, c) + Count(p, Suffix(c, |p| - 1) + chunk)
  {
    var s, w := c + chunk, Suffix(c, |p| - 1) + chunk;
    var k := Starts(|p|, |c|);
    assert w == s[k..];
    CountPrefix(p, c, chunk);
    CountSuffix(p, s, k);
    CountSplit(p, s, 0, k, |s|);
  }

  /** One read keeps the total equal to the count over the consumed stream. */
  lemma CountStep<T>(p: seq<T>, st: Run<T>, c: seq<T>, chunk: seq<T>)
    requires p != [] && chunk != [] && NoOverlapWithin(p, |st.tail + chunk|)
    requires st.tail == Suffix(c, |p| - 1) && st.total == Count(p, c)
    ensures Step(p, st, chunk).total == Count(p, c + chunk)
  {
    var w := st.tail + chunk;
    if |w| < |p| {
      CountShort(p, c + chunk);
      CountShort(p, c);
    } else {
      WindowCount(p, c, chunk);
      GreedyFindsAll(p, w, 0);
    }
  }

  /** The loop invariant over whole runs: for every way of cutting the stream into reads, the
      running total is the number of occurrences in the consumed stream. */
  lemma {:induction false} RunCountsExactly<T>(p: seq<T>, size: nat, h: Reads<T>)
    requires p != [] && Feasible(p, size, h) && NoOverlapWithin(p, size)
    ensures RunReads(p, h).total == Count(p, Consumed(h))
  {
    if h.Then? {
      var before, chunk := h.before, h.chunk;
      RunCountsExactly(p, size, before);
      TailIsSuffix(p, before);
      CountStep(p, RunReads(p, before), Consumed(before), chunk);
    }
  }

  /** At every loop head, for a pattern without a border: the matches found so far take up
      that many pattern lengths of what was consumed. */
  lemma RunRoom<T>(p: seq<T>, size: nat, h: Reads<T>)
    requires p != [] && Feasible(p, size, h) && NoBorder(p)
    ensures |p| * RunReads(p, h).total <= |Consumed(h)|
  {
    RunCountsExactly(p, size, h);
    CountRoom(p, Consumed(h), 0);
  }

  /** There are at most as many reads as elements consumed. */
  lemma {:induction false} ReadsBound<T>(p: seq<T>, size: nat, h: Reads<T>)
    requires p != [] && Feasible(p, size, h)
    ensures h.Length() <= |Consumed(h)|
  {
    if h.Then? {
      ReadsBound(p, size, h.before);
    }
  }

  /** The window of a read is too short to scan exactly while fewer elements than the pattern
      has were consumed. */
  lemma ShortWindowExactly<T>(p: seq<T>, h: Reads<T>, chunk: seq<T>)
    requires p != [] && chunk != []
    ensures |RunReads(p, h).tail + chunk| < |p| <==> |Consumed(h) + chunk| < |p|
  {
    TailIsSuffix(p, h);
  }

  lemma WorkStep<T>(p: seq<T>, st: Run<T>, c: seq<T>, chunk: seq<T>)
    requires p != [] && st.tail == Suffix(c, |p| - 1)
    requires st.compares <= Starts(|p|, |c|) <= st.compares + (|p| - 1) * st.total
    ensures var r := Step(p, st, chunk);
            r.compares <= Starts(|p|, |c + chunk|) <= r.compares + (|p| - 1) * r.total
  {
    var w := st.tail + chunk;
    if |w| >= |p| {
      GreedyWork(p, w, 0);
      assert Starts(|p|, |c + chunk|) == Starts(|p|, |c|) + Starts(|p|, |w|);
      TimesSum(|p| - 1, st.total, GreedyScan(p, w, 0).matches);
    }
  }

  /** The work of a whole run: each start position of the stream lies in exactly one window,
      and a match saves at most |p| - 1 comparisons. No assumption on the pattern. */
  lemma {:induction false} RunWork<T>(p: seq<T>, h: Reads<T>)
    requires p != []
    ensures var r := RunReads(p, h);
            r.compares <= Starts(|p|, |Consumed(h)|) <= r.compares + (|p| - 1) * r.total
  {
    if h.Then? {
      var before, chunk := h.before, h.chunk;
      RunWork(p, before);
      TailIsSuffix(p, before);
      WorkStep(p, RunReads(p, before), Consumed(before), chunk);
    }
  }

  // ---------- Split independence ----------

  /** Two ways of cutting the same stream into reads always give the same total. */
  ghost predicate SplitIndependent<T(!new)>(p: seq<T>, size: nat)
    requires p != []
  {
    forall r: Reads<T>, q: Reads<T> ::
      Feasible(p, size, r) && Feasible(p, size, q) && Consumed(r) == Consumed(q)
      ==> RunReads(p, r).total == RunReads(p, q).total
  }

  ghost predicate AlwaysExact<T(!new)>(p: seq<T>, size: nat)
    requires p != []
  {
    forall r: Reads<T> ::
      Feasible(p, size, r) ==> RunReads(p, r).total == Count(p, Consumed(r))
  }

  ghost function Once<T>(s: seq<T>): Reads<T> {
    Then(Start, s)
  }

  lemma OneRead<T>(p: seq<T>, s: seq<T>)
    requires |s| >= |p| > 0
    ensures RunReads(p, Once(s)) == Window(p, s)
    ensures Consumed(Once(s)) == s
    ensures forall size: nat :: |s| <= size ==> Feasible(p, size, Once(s))
  {
    assert [] + s == s;
    assert RunReads(p, Start) == Run([], 0, 0);
  }

  /** A border whose overlap fits into the buffer breaks the count: the overlapped stream read
      whole counts once, read as the pattern and then the rest it counts at least twice. */
  lemma BorderBreaksSplits<T>(p: seq<T>, size: nat, b: int)
    requires Border(p, b) && 2 * |p| - b <= size
    ensures var r, q := Once(p + p[b..]), Then(Once(p), p[b..]);
            && Feasible(p, size, r) && Feasible(p, size, q) && Consumed(r) == Consumed(q)
            && RunReads(p, r).total == 1 && RunReads(p, q).total >= 2
  {
    var s := p + p[b..];
    OneRead(p, s);
    OneRead(p, p);
    assert s[0..|p|] == p && p[0..|p|] == p;
    assert GreedyScan(p, s, |p|) == Scan(0, 0) == GreedyScan(p, p, |p|);
    OverlapInSecondWindow(p, b);
  }

  lemma OverlapInSecondWindow<T>(p: seq<T>, b: int)
    requires Border(p, b)
    ensures GreedyScan(p, p[1..] + p[b..], 0).matches >= 1
  {
    var m, w := |p|, p[1..] + p[b..];
    var at := m - 1 - b;
    assert w[at..at + b] == p[m - b..] == p[..b];
    assert w[at + b..at + m] == p[b..];
    assert w[at..at + m] == w[at..at + b] + w[at + b..at + m] == p[..b] + p[b..] == p;
    GreedyFindsSome(p, w, 0, at);
  }

  /** Exactly when the count does not depend on how the stream is read: iff no border of the
      pattern lets two overlapping occurrences fit into the buffer. Then it is also exact. */
  lemma SplitIndependence<T(!new)>(p: seq<T>, size: nat)
    requires 0 < |p| <= size
    ensures SplitIndependent(p, size) <==> NoOverlapWithin(p, size)
    ensures AlwaysExact(p, size) <==> NoOverlapWithin(p, size)
  {
    if NoOverlapWithin(p, size) {
      forall r: Reads<T> | Feasible(p, size, r)
        ensures RunReads(p, r).total == Count(p, Consumed(r))
      {
        RunCountsExactly(p, size, r);
      }
      assert AlwaysExact(p, size);
    } else {
      var b :| Border(p, b) && 2 * |p| - b <= size;
      BorderBreaksSplits(p, size, b);
      var r, q := Once(p + p[b..]), Then(Once(p), p[b..]);
      assert RunReads(p, r).total != RunReads(p, q).total;
    }
  }

  /** For a buffer of any size at all, that condition is having no border. */
  lemma SplitIndependenceForAllBuffers<T(!new)>(p: seq<T>)
    requires p != []
    ensures (forall size: nat :: |p| <= size ==> SplitIndependent(p, size)) <==> NoBorder(p)
  {
    forall size: nat | |p| <= size
      ensures SplitIndependent(p, size) <==> NoOverlapWithin(p, size)
    {
      SplitIndependence(p, size);
    }
    if exists b :: Border(p, b) {
      var b :| Border(p, b);
      assert !NoOverlapWithin(p, 2 * |p| - b);
      assert !SplitIndependent(p, 2 * |p| - b);
    }
  }
}
