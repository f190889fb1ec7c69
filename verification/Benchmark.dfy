/** The benchmark end to end: generate data, then count it. */
module Benchmark {
  import opened Pattern
  import opened Baseline
  import opened Generator

  /** The patterns in a file that starts with n generated bytes. */
  lemma AlphasBehind(n: nat, stays: seq<byte>)
    ensures var all := Generated(n) + stays;
            && |all| == n + |stays| && all[n..] == stays
            && |Alphas(all)| == n / 4096 + |Alphas(stays)|
            && (|Alphas(stays)| == 0 <==> Alphas(stays) == {})
  {
    GeneratedCount(n, stays);
    AlphasCounted(Generated(n) + stays);
    AlphasCounted(stays);
  }

  /** Generate data, then count it. Unless a read fails, the printed count is the announced one
      plus the number of patterns in what stays on the device behind the data, as a uint64_t;
      below 2^64 the two programs print the same number exactly when no pattern stays there. */
  method GenerateAndCount(f: OutputFile, target: int, fails: nat -> bool)
    returns (expected: nat, r: Outcome, ghost calls: nat)
    modifies f
    ensures 0 < calls <= |f.contents| + 1
    ensures r.ReadFailed? <==> fails(calls - 1)
    ensures forall k: nat :: k < calls - 1 ==> !fails(k)
    ensures r.Counted? ==> r.count == |Alphas(f.contents)| % 0x1_0000_0000_0000_0000
    ensures var n := if target < 0 then 0 else target;
            var stays := if f.isDevice && n < |old(f.contents)| then old(f.contents)[n..] else [];
            && expected == n / 4096
            && |f.contents| == n + |stays|
            && f.contents[n..] == stays
            && (r.Counted? ==> r.count == (expected + |Alphas(stays)|) % 0x1_0000_0000_0000_0000)
            && (r.Counted? && expected + |Alphas(stays)| < 0x1_0000_0000_0000_0000 ==>
                  r.count == expected + |Alphas(stays)| && (r.count == expected <==> Alphas(stays) == {}))
  {
    ghost var n := if target < 0 then 0 else target;
    ghost var stays := if f.isDevice && n < |f.contents| then f.contents[n..] else [];
    var written;
    written, expected := Generate(f, target);
    assert f.contents == Generated(n) + stays;
    AlphasBehind(n, stays);
    var input := new InputFile(f.contents, fails);
    ghost var compares;
    r, compares := CountAlpha(input);
    calls := input.calls;
  }

  /** Where they differ: a device that holds one more pattern right behind the data. */
  lemma CountsDiffer(n: nat)
    ensures var device := Padding(n) + PATTERN;
            |Alphas(Generated(n) + device[n..])| == n / 4096 + 1
  {
    var device := Padding(n) + PATTERN;
    assert device[n..] == PATTERN;
    GeneratedCount(n, PATTERN);
    CountOnce();
    AlphasCounted(Generated(n) + PATTERN);
  }
}
