/**
 The measurement arithmetic of the page, over the reals: rounding is idealised.
 */
module Metrics {
  import opened Wrappers
  import opened Sorting

  // ---- RFC 3550 jitter ----------------------------------------------------------------

  // A round-trip time as the page may hold one.
  datatype Sample = Finite(ms: real) | NotFinite

  function FiniteOnly(samples: seq<Sample>): seq<real> {
    if samples == [] then []
    else (if samples[0].Finite? then [samples[0].ms] else []) + FiniteOnly(samples[1..])
  }

  function Abs(x: real): real {
    if x < 0.0 then -x else x
  }

  // The absolute differences of neighbours.
  function Steps(xs: seq<real>): (ds: seq<real>)
    ensures |ds| == if xs == [] then 0 else |xs| - 1
    ensures forall i {:trigger ds[i]} :: 0 <= i < |ds| ==> ds[i] == Abs(xs[i + 1] - xs[i]) && ds[i] >= 0.0
  {
    if xs == [] then [] else seq(|xs| - 1, i requires 0 <= i < |xs| - 1 => Abs(xs[i + 1] - xs[i]))
  }

  // (15/16)^k
  function Decay(k: nat): (w: real)
    ensures 0.0 < w <= 1.0
  {
    if k == 0 then 1.0 else Decay(k - 1) * 15.0 / 16.0
  }

  // The closed form: step i, counted from the first, weighs (1/16) * (15/16)^(n-1-i).
  function WeightedSum(ds: seq<real>, n: nat): real
    requires n <= |ds|
  {
    if n == 0 then 0.0 else WeightedSum(ds, n - 1) + Decay(|ds| - n) * ds[n - 1] / 16.0
  }

  function Jitter(xs: seq<real>): real {
    WeightedSum(Steps(xs), |Steps(xs)|)
  }

  lemma {:induction false} OneMoreStepDecays(ds: seq<real>, d: real, n: nat)
    requires n <= |ds|
    ensures WeightedSum(ds + [d], n) == WeightedSum(ds, n) * 15.0 / 16.0
  {
    if n > 0 {
      OneMoreStepDecays(ds, d, n - 1);
      assert (ds + [d])[n - 1] == ds[n - 1];
    }
  }

  // The recurrence of section 6.4.1 of RFC 3550.
  lemma RecurrenceStep(ds: seq<real>, d: real)
    ensures var w := WeightedSum(ds, |ds|);
            WeightedSum(ds + [d], |ds| + 1) == w + (d - w) / 16.0
  {
    OneMoreStepDecays(ds, d, |ds|);
    assert Decay(0) == 1.0 && (ds + [d])[|ds|] == d;
  }

  lemma WeightedSumSplit(ds: seq<real>)
    requires ds != []
    ensures var n := |ds| - 1;
            var w := WeightedSum(ds[..n], n);
            WeightedSum(ds, |ds|) == w + (ds[n] - w) / 16.0
  {
    RecurrenceStep(ds[..|ds| - 1], ds[|ds| - 1]);
    assert ds[..|ds| - 1] + [ds[|ds| - 1]] == ds;
  }

  lemma PrefixStep(ds: seq<real>, i: nat)
    requires 0 < i <= |ds|
    ensures var w := WeightedSum(ds[..i - 1], i - 1);
            WeightedSum(ds[..i], i) == w + (ds[i - 1] - w) / 16.0
  {
    WeightedSumSplit(ds[..i]);
    assert ds[..i][..i - 1] == ds[..i - 1];
  }

  // The recurrence computes the closed form.
  method JitterRFC3550(samples: seq<Sample>) returns (j: real)
    ensures j == Jitter(FiniteOnly(samples))
  {
    if |samples| < 2 {
      return 0.0;
    }
    var finite := FiniteOnly(samples);
    if |finite| < 2 {
      return 0.0;
    }
    j := 0.0;
    var i := 1;
    ghost var ds := Steps(finite);
    assert WeightedSum(ds[..0], 0) == 0.0;
    hide WeightedSum, FiniteOnly;
    while i < |finite|
      invariant 1 <= i <= |finite|
      invariant j == WeightedSum(ds[..i - 1], i - 1)
    {
      var d := Abs(finite[i] - finite[i - 1]);
      assert d == ds[i - 1];
      PrefixStep(ds, i);
      j := j + (d - j) / 16.0;
      i := i + 1;
    }
    assert ds[..i - 1] == ds;
  }

  // n steps of at most m leave the jitter between 0 and m * (1 - (15/16)^n).
  lemma {:induction false} WeightedSumBounds(ds: seq<real>, m: real)
    requires forall i :: 0 <= i < |ds| ==> 0.0 <= ds[i] <= m
    ensures 0.0 <= WeightedSum(ds, |ds|) <= m * (1.0 - Decay(|ds|))
  {
    if ds != [] {
      var n := |ds| - 1;
      WeightedSumBounds(ds[..n], m);
      WeightedSumSplit(ds);
      assert Decay(n + 1) == Decay(n) * 15.0 / 16.0;
      assert m * Decay(n + 1) == m * Decay(n) * 15.0 / 16.0;
    }
  }

  // No two neighbours further apart than m: the jitter stays between 0 and m.
  lemma JitterBounds(xs: seq<real>, m: real)
    requires m >= 0.0 && forall i, j :: 0 <= i && j == i + 1 && j < |xs| ==> -m <= xs[j] - xs[i] <= m
    ensures 0.0 <= Jitter(xs) <= m
  {
    hide WeightedSum, Decay;
    var ds := Steps(xs);
    assert forall i {:trigger ds[i]} :: 0 <= i < |ds| ==> -m <= xs[i + 1] - xs[i] <= m;
    WeightedSumBounds(ds, m);
    ShareAtMost(m, Decay(|ds|));
  }

  // One more sample moves the jitter a sixteenth of the way to its distance from the last one.
  lemma JitterRecurrence(xs: seq<real>, x: real)
    ensures Jitter([]) == Jitter([x]) == 0.0
    ensures xs != [] ==>
              var last, j := xs[|xs| - 1], Jitter(xs);
              Jitter(xs + [x]) == j + ((if x >= last then x - last else last - x) - j) / 16.0
  {
    if xs != [] {
      var d := Abs(x - xs[|xs| - 1]);
      assert Steps(xs + [x]) == Steps(xs) + [d];
      RecurrenceStep(Steps(xs), d);
    }
  }

  lemma ShareAtMost(m: real, w: real)
    requires m >= 0.0 && w >= 0.0
    ensures m * (1.0 - w) <= m && m * w >= 0.0
  {
  }

  lemma {:induction false} ConstantSteps(ds: seq<real>, d: real)
    requires forall i :: 0 <= i < |ds| ==> ds[i] == d
    ensures WeightedSum(ds, |ds|) == d * (1.0 - Decay(|ds|))
  {
    if ds != [] {
      var n := |ds| - 1;
      ConstantSteps(ds[..n], d);
      WeightedSumSplit(ds);
      assert d * Decay(n + 1) == d * Decay(n) * 15.0 / 16.0;
    }
  }

  lemma StepsOfSize(xs: seq<real>, d: real)
    requires xs != [] && d >= 0.0
    requires forall i, j :: 0 <= i && j == i + 1 && j < |xs| ==> xs[j] - xs[i] == d || xs[i] - xs[j] == d
    ensures |Steps(xs)| == |xs| - 1 && forall i :: 0 <= i < |Steps(xs)| ==> Steps(xs)[i] == d
  {
    var ds := Steps(xs);
    assert forall i {:trigger ds[i]} :: 0 <= i < |ds| ==> xs[i + 1] - xs[i] == d || xs[i] - xs[i + 1] == d;
  }

  // k steps of one size d, up or down, bring the jitter to d * (1 - (15/16)^k).
  lemma ConstantJitter(xs: seq<real>, d: real)
    requires xs != [] && d >= 0.0
    requires forall i, j :: 0 <= i && j == i + 1 && j < |xs| ==> xs[j] - xs[i] == d || xs[i] - xs[j] == d
    ensures Jitter(xs) == d * (1.0 - Decay(|xs| - 1))
  {
    hide WeightedSum, Decay;
    StepsOfSize(xs, d);
    ConstantSteps(Steps(xs), d);
    hide Steps;
  }

  lemma FirstCounts(samples: seq<Sample>)
    requires samples != []
    ensures FiniteOnly(samples)
         == (if samples[0].Finite? then [samples[0].ms] else []) + FiniteOnly(samples[1..])
  {
  }

  // A finite sample counts, wherever it comes.
  lemma {:induction false} GoodSampleIsKept(before: seq<Sample>, x: real, after: seq<Sample>)
    ensures FiniteOnly(before + [Finite(x)] + after) == FiniteOnly(before) + [x] + FiniteOnly(after)
  {
    var all := before + [Finite(x)] + after;
    FirstCounts(all);
    if before == [] {
      assert all[1..] == after;
      assert FiniteOnly(before) + [x] == [x];
    } else {
      FirstCounts(before);
      hide FiniteOnly;
      GoodSampleIsKept(before[1..], x, after);
      assert all[1..] == before[1..] + [Finite(x)] + after;
    }
  }

  // A bad sample changes nothing, wherever it comes.
  lemma {:induction false} BadSampleIsIgnored(before: seq<Sample>, after: seq<Sample>)
    ensures FiniteOnly(before + [NotFinite] + after) == FiniteOnly(before + after)
  {
    if before == [] {
      assert [NotFinite] + after == before + [NotFinite] + after;
      assert ([NotFinite] + after)[1..] == after && before + after == after;
    } else {
      BadSampleIsIgnored(before[1..], after);
      assert (before + [NotFinite] + after)[1..] == before[1..] + [NotFinite] + after;
      assert (before + after)[1..] == before[1..] + after;
    }
  }

  // ---- percentile ---------------------------------------------------------------------

  predicate AtMost(x: real, y: real) {
    x <= y
  }

  function Ceil(x: real): int {
    -((-x).Floor)
  }

  function Between(x: real, y: real, t: real): real {
    x + t * (y - x)
  }

  // Linear interpolation at a rank between 0 and |s| - 1.
  function AtRank(s: seq<real>, rank: real): real
    requires s != [] && 0.0 <= rank <= (|s| - 1) as real
  {
    var lo, hi := rank.Floor, Ceil(rank);
    if lo == hi then s[lo] else Between(s[lo], s[hi], rank - lo as real)
  }

  function ClampPercent(p: real): (c: real)
    ensures 0.0 <= c <= 100.0
  {
    if p < 0.0 then 0.0 else if p > 100.0 then 100.0 else p
  }

  function Rank(p: real, n: nat): (r: real)
    requires n > 0
    ensures 0.0 <= r <= (n - 1) as real
  {
    var share, m := ClampPercent(p) / 100.0, (n - 1) as real;
    ShareAtMost(m, share);
    ShareAtMost(m, 1.0 - share);
    share * m
  }

  function Percentile(samples: seq<real>, p: real): real {
    if samples == [] then 0.0
    else
      var sorted := Sort(AtMost, samples);
      if |sorted| == 1 then sorted[0] else AtRank(sorted, Rank(p, |sorted|))
  }

  lemma RealsAreOrdered(s: seq<real>)
    ensures Ordering(AtMost) && Ranked(AtMost, s) && Sorted(AtMost, Sort(AtMost, s))
  {
    SortSorts(AtMost, s);
  }

  // The order of the samples does not matter.
  lemma PercentileIgnoresOrder(a: seq<real>, b: seq<real>, p: real)
    requires multiset(a) == multiset(b)
    ensures Percentile(a, p) == Percentile(b, p)
  {
    RealsAreOrdered(a);
    RealsAreOrdered(b);
    SortIsCanonical(AtMost, a, Sort(AtMost, b));
    assert |a| == |multiset(a)| == |multiset(b)| == |b|;
  }

  // On one segment: between its ends, and rising.
  lemma SegmentRises(x: real, y: real, t: real, u: real)
    requires x <= y && 0.0 <= t <= u <= 1.0
    ensures x <= Between(x, y, t) <= Between(x, y, u) <= y
  {
    var d := y - x;
    NonNegative(t, d);
    NonNegative(u - t, d);
    NonNegative(1.0 - u, d);
    assert (u - t) * d == u * d - t * d && (1.0 - u) * d == d - u * d;
  }

  lemma NonNegative(x: real, y: real)
    requires x >= 0.0 && y >= 0.0
    ensures x * y >= 0.0
  {
  }

  lemma AtRankWithin(s: seq<real>, rank: real)
    requires s != [] && Sorted(AtMost, s) && 0.0 <= rank <= (|s| - 1) as real
    ensures s[rank.Floor] <= AtRank(s, rank) <= s[Ceil(rank)]
  {
    var lo, hi := rank.Floor, Ceil(rank);
    if lo < hi {
      assert AtMost(s[lo], s[hi]);
      SegmentRises(s[lo], s[hi], rank - lo as real, rank - lo as real);
    }
  }

  lemma AtRankRises(s: seq<real>, r: real, r': real)
    requires s != [] && Sorted(AtMost, s) && 0.0 <= r <= r' <= (|s| - 1) as real
    ensures AtRank(s, r) <= AtRank(s, r')
  {
    AtRankWithin(s, r);
    AtRankWithin(s, r');
    if Ceil(r) < r'.Floor {
      assert AtMost(s[Ceil(r)], s[r'.Floor]);
    } else if r.Floor == r'.Floor && Ceil(r) == Ceil(r') && r.Floor < Ceil(r) {
      assert AtMost(s[r.Floor], s[Ceil(r)]);
      SegmentRises(s[r.Floor], s[Ceil(r)], r - r.Floor as real, r' - r.Floor as real);
    }
  }

  lemma RankRises(p: real, p': real, n: nat)
    requires n > 0 && p <= p'
    ensures Rank(p, n) <= Rank(p', n)
  {
    var c, c', m := ClampPercent(p), ClampPercent(p'), (n - 1) as real;
    var d := c' / 100.0 - c / 100.0;
    assert d >= 0.0 && d * m >= 0.0;
    assert d * m == (c' / 100.0) * m - (c / 100.0) * m;
  }

  // A higher percentage never gives a lower value, across all segments.
  lemma PercentileRises(samples: seq<real>, p: real, p': real)
    requires p <= p'
    ensures Percentile(samples, p) <= Percentile(samples, p')
  {
    RealsAreOrdered(samples);
    if |samples| > 1 {
      RankRises(p, p', |samples|);
      AtRankRises(Sort(AtMost, samples), Rank(p, |samples|), Rank(p', |samples|));
    }
  }

  lemma SortIs(samples: seq<real>, s: seq<real>)
    requires multiset(s) == multiset(samples) && forall i, j :: 0 <= i < j < |s| ==> s[i] <= s[j]
    ensures Sort(AtMost, samples) == s && |s| == |samples|
  {
    RealsAreOrdered(samples);
    SortIsCanonical(AtMost, samples, s);
  }

  lemma BetweenRanks(s: seq<real>, k: nat, t: real)
    requires k + 1 < |s| && 0.0 <= t <= 1.0
    ensures AtRank(s, k as real + t) == Between(s[k], s[k + 1], t)
  {
    assert (k as real + t).Floor == if t == 1.0 then k + 1 else k;
  }

  lemma PercentileBetween(samples: seq<real>, p: real, k: nat, t: real)
    requires k + 1 < |samples| && 0.0 <= t <= 1.0
    requires p * (|samples| - 1) as real == 100.0 * (k as real + t)
    ensures var s := Sort(AtMost, samples);
            Percentile(samples, p) == Between(s[k], s[k + 1], t)
  {
    hide Sort, Rank, Between;
    RankOf(p, k as real + t, |samples|);
    BetweenRanks(Sort(AtMost, samples), k, t);
  }

  // Between two whole ranks the percentile moves linearly from one sample to the next, and at a
  // whole rank it is that sample: here p percent of n - 1 is k + t, and s is the samples in order.
  lemma PercentileInterpolates(samples: seq<real>, s: seq<real>, p: real, k: nat, t: real)
    requires multiset(s) == multiset(samples) && forall i, j :: 0 <= i < j < |s| ==> s[i] <= s[j]
    requires k + 1 < |s| && 0.0 <= t <= 1.0
    requires p * (|s| - 1) as real == 100.0 * (k as real + t)
    ensures Percentile(samples, p) == s[k] + t * (s[k + 1] - s[k])
  {
    hide Percentile, Sort;
    SortIs(samples, s);
    PercentileBetween(samples, p, k, t);
  }

  lemma RankOf(p: real, x: real, n: nat)
    requires n > 1 && 0.0 <= x <= (n - 1) as real && p * (n - 1) as real == 100.0 * x
    ensures Rank(p, n) == x
  {
    var m := (n - 1) as real;
    assert 0.0 <= p <= 100.0 by {
      assert p > 100.0 ==> p * m > 100.0 * m;
      assert p < 0.0 ==> p * m < 0.0;
    }
    assert (p / 100.0) * m == x;
  }

  lemma EndRanks(n: nat)
    requires n > 0
    ensures Rank(0.0, n) == 0.0 && Rank(100.0, n) == (n - 1) as real
  {
    var m := (n - 1) as real;
    assert (0.0 / 100.0) * m == 0.0 && (100.0 / 100.0) * m == m;
  }

  // From the least sample at 0 to the greatest at 100, and never outside.
  lemma PercentileEndsAndBounds(samples: seq<real>, p: real)
    requires samples != []
    ensures Percentile([], p) == 0.0
    ensures Percentile(samples, 0.0) <= Percentile(samples, p) <= Percentile(samples, 100.0)
    ensures Percentile(samples, 0.0) in samples && Percentile(samples, 100.0) in samples
    ensures forall x :: x in samples ==> Percentile(samples, 0.0) <= x <= Percentile(samples, 100.0)
  {
    var s, n := Sort(AtMost, samples), |samples|;
    RealsAreOrdered(samples);
    hide Sort;
    EndRanks(n);
    assert Percentile(samples, 0.0) == s[0] && Percentile(samples, 100.0) == s[n - 1];
    assert s[0] in multiset(samples) && s[n - 1] in multiset(samples);
    forall x | x in samples
      ensures s[0] <= x <= s[n - 1]
    {
      assert x in multiset(s);
      var i :| 0 <= i < n && s[i] == x;
      assert i > 0 ==> AtMost(s[0], s[i]);
      assert i < n - 1 ==> AtMost(s[i], s[n - 1]);
    }
    PercentileRises(samples, 0.0, if p < 0.0 then 0.0 else p);
    PercentileRises(samples, if p > 100.0 then 100.0 else p, 100.0);
  }

  // ---- rolling window and packet loss -------------------------------------------------

  // A fresh array: the last maxLen - 1 entries of the window, then the sample.
  function PushWindow<T>(window: seq<T>, sample: T, maxLen: int): seq<T> {
    (if |window| >= maxLen then
       var from := |window| - maxLen + 1;
       if from > |window| then [] else window[from..]
     else window) + [sample]
  }

  function PushAll<T>(samples: seq<T>, maxLen: int): seq<T> {
    if samples == [] then []
    else PushWindow(PushAll(samples[..|samples| - 1], maxLen), samples[|samples| - 1], maxLen)
  }

  function LastOf<T>(s: seq<T>, n: nat): (r: seq<T>)
    ensures |r| == if |s| <= n then |s| else n
  {
    if |s| <= n then s else s[|s| - n..]
  }

  lemma PushKeepsTail<T>(s: seq<T>, x: T, maxLen: int)
    ensures PushWindow(LastOf(s, Max(1, maxLen)), x, maxLen) == LastOf(s + [x], Max(1, maxLen))
  {
  }

  lemma {:induction false} PushesKeepTail<T>(samples: seq<T>, maxLen: int)
    ensures PushAll(samples, maxLen) == LastOf(samples, Max(1, maxLen))
  {
    if samples != [] {
      var n := |samples| - 1;
      PushesKeepTail(samples[..n], maxLen);
      PushKeepsTail(samples[..n], samples[n], maxLen);
      assert samples[..n] + [samples[n]] == samples;
    }
  }

  // Pushing every sample in turn leaves the last maxLen of them, and never fewer than one.
  lemma WindowIsTheTail<T>(samples: seq<T>, maxLen: int)
    ensures var n := if maxLen > 1 then maxLen else 1;
            PushAll(samples, maxLen) == samples[if |samples| > n then |samples| - n else 0..]
  {
    PushesKeepTail(samples, maxLen);
    hide PushAll;
  }

  datatype Ping = Ping(rtt: real, ok: bool)

  function Oks(ps: seq<Ping>): seq<real> {
    if ps == [] then [] else Oks(ps[..|ps| - 1]) + if ps[|ps| - 1].ok then [ps[|ps| - 1].rtt] else []
  }

  // windowStats(...).packetLoss
  function PacketLoss(window: seq<Ping>): real {
    if window == [] then 0.0
    else
      var failed := |window| - |Oks(window)|;
      (failed as real / |window| as real) * 100.0
  }

  lemma {:induction false} OksAreTheRest(ps: seq<Ping>)
    ensures |ps| - |Oks(ps)| == |set i | 0 <= i < |ps| && !ps[i].ok|
  {
    if ps != [] {
      var n := |ps| - 1;
      OksAreTheRest(ps[..n]);
      var failed := set i | 0 <= i < n && !ps[..n][i].ok;
      assert (set i | 0 <= i < |ps| && !ps[i].ok) == failed + if ps[n].ok then {} else {n};
    }
  }

  // The share of failed pings, in percent.
  lemma LossIsFailureShare(window: seq<Ping>)
    requires window != []
    ensures PacketLoss(window) == (|set i | 0 <= i < |window| && !window[i].ok| as real / |window| as real) * 100.0
  {
    OksAreTheRest(window);
  }

  // ---- throughput and the slow-start trim ---------------------------------------------

  function ThroughputMbps(bytes: real, elapsedMs: real): real {
    if elapsedMs <= 0.0 then 0.0 else (bytes * 8.0) / (elapsedMs * 1000.0)
  }

  datatype Point = Point(elapsedMs: real, bytes: real)

  // findIndex: the first point at or after the boundary, or -1.
  function FirstFrom(points: seq<Point>, warmupMs: real): (i: int)
    ensures -1 <= i < |points|
    ensures i >= 0 ==> points[i].elapsedMs >= warmupMs
    ensures forall k :: 0 <= k < (if i < 0 then |points| else i) ==> points[k].elapsedMs < warmupMs
  {
    if points == [] then -1
    else if points[0].elapsedMs >= warmupMs then 0
    else
      var i := FirstFrom(points[1..], warmupMs);
      if i < 0 then -1 else i + 1
  }

  function Baseline(points: seq<Point>, warmupMs: real): Point
    requires FirstFrom(points, warmupMs) >= 0
  {
    var i := FirstFrom(points, warmupMs);
    if i == 0 then Point(0.0, 0.0) else points[i - 1]
  }

  function TrimThroughput(points: seq<Point>, totalBytes: real, totalMs: real, warmupMs: real): real {
    if warmupMs <= 0.0 || points == [] then ThroughputMbps(totalBytes, totalMs)
    else if FirstFrom(points, warmupMs) == -1 then ThroughputMbps(totalBytes, totalMs)
    else
      var b := Baseline(points, warmupMs);
      ThroughputMbps(totalBytes - b.bytes, totalMs - b.elapsedMs)
  }

  // Points in order of time and bytes, ending no later than the totals.
  ghost predicate Monotone(points: seq<Point>, totalBytes: real, totalMs: real) {
    && (forall i :: 0 <= i < |points| ==> 0.0 <= points[i].elapsedMs <= totalMs && 0.0 <= points[i].bytes <= totalBytes)
    && (forall i, j :: 0 <= i < j < |points| ==>
          points[i].elapsedMs <= points[j].elapsedMs && points[i].bytes <= points[j].bytes)
  }

  datatype Chunk = Chunk(now: real, size: nat)

  // The clock never steps back, and the end comes last.
  ghost predicate Timed(chunks: seq<Chunk>, end: real) {
    && (forall i, j :: 0 <= i < j < |chunks| ==> chunks[i].now <= chunks[j].now)
    && forall i :: 0 <= i < |chunks| ==> chunks[i].now <= end
  }

  // The points of the chunks from m on: one each, at its time, with the bytes counted so far.
  ghost predicate PointsOf(points: seq<Point>, total: nat, chunks: seq<Chunk>, m: nat, i: nat, measureStart: real)
    requires m <= i <= |chunks|
  {
    && |points| == i - m
    && (forall k :: 0 <= k < |points| ==> points[k].elapsedMs == chunks[m + k].now - measureStart)
    && (points != [] ==> points[0].bytes == chunks[m].size as real)
    && (forall k, l :: 0 <= k && l == k + 1 && l < |points| ==>
          points[l].bytes == points[k].bytes + chunks[m + l].size as real)
    && total as real == if points == [] then 0.0 else points[|points| - 1].bytes
  }

  // Which chunks come before the measurement starts, and which do not.
  ghost predicate StartsAt(chunks: seq<Chunk>, m: nat, i: nat, measureStart: real)
    requires m <= i <= |chunks|
  {
    && (forall k :: 0 <= k < m ==> chunks[k].now < measureStart)
    && (forall k :: m <= k < i ==> chunks[k].now >= measureStart)
  }

  lemma StartsMove(chunks: seq<Chunk>, m: nat, i: nat, measureStart: real, end: real)
    requires m <= i < |chunks| && Timed(chunks, end) && StartsAt(chunks, m, i, measureStart)
    ensures chunks[i].now < measureStart ==> m == i && StartsAt(chunks, i + 1, i + 1, measureStart)
    ensures chunks[i].now >= measureStart ==> StartsAt(chunks, m, i + 1, measureStart)
  {
    assert m < i ==> chunks[m].now <= chunks[i].now;
  }

  lemma NoPointsYet(points: seq<Point>, total: nat, chunks: seq<Chunk>, m: nat, i: nat, measureStart: real)
    requires m == i < |chunks| && PointsOf(points, total, chunks, m, i, measureStart)
    ensures PointsOf(points, total, chunks, i + 1, i + 1, measureStart)
  {
  }

  lemma PointsGrow(points: seq<Point>, total: nat, chunks: seq<Chunk>, m: nat, i: nat, measureStart: real)
    requires m <= i < |chunks| && PointsOf(points, total, chunks, m, i, measureStart)
    ensures var c := chunks[i];
            var total' := total + c.size;
            PointsOf(points + [Point(c.now - measureStart, total' as real)], total', chunks, m, i + 1, measureStart)
  {
  }

  lemma PointsAreMonotone(points: seq<Point>, total: nat, chunks: seq<Chunk>, m: nat, i: nat, measureStart: real,
                          end: real)
    requires m <= i <= |chunks| && Timed(chunks, end) && StartsAt(chunks, m, i, measureStart)
    requires PointsOf(points, total, chunks, m, i, measureStart)
    ensures Monotone(points, total as real, end - measureStart)
  {
    forall k | 0 <= k < |points|
      ensures 0.0 <= points[k].elapsedMs <= end - measureStart
    {
      assert chunks[m + k].now >= measureStart;
    }
    forall j | 0 <= j < |points|
      ensures 0.0 <= points[j].bytes <= total as real
      ensures forall k :: 0 <= k <= j ==> points[k].bytes <= points[j].bytes
    {
      BytesRise(points, j);
      BytesRise(points, |points| - 1);
    }
    forall k, j | 0 <= k < j < |points|
      ensures points[k].elapsedMs <= points[j].elapsedMs
    {
      assert chunks[m + k].now <= chunks[m + j].now;
    }
  }

  lemma {:induction false} BytesRise(points: seq<Point>, j: nat)
    requires j < |points| && points[0].bytes >= 0.0
    requires forall k, l :: 0 <= k && l == k + 1 && l < |points| ==> points[k].bytes <= points[l].bytes
    ensures forall k :: 0 <= k <= j ==> 0.0 <= points[k].bytes <= points[j].bytes
  {
    if j > 0 {
      BytesRise(points, j - 1);
    }
  }

  // The read loop: chunks before measureStart are discarded, every later one adds a point.  Here
  // m of them come too early.
  method RecordChunks(chunks: seq<Chunk>, measureStart: real, end: real)
    returns (points: seq<Point>, total: nat, ghost m: nat)
    requires Timed(chunks, end)
    ensures m <= |chunks| && StartsAt(chunks, m, |chunks|, measureStart)
    ensures PointsOf(points, total, chunks, m, |chunks|, measureStart)
    ensures Monotone(points, total as real, end - measureStart)
  {
    points, total, m := [], 0, 0;
    var i := 0;
    while i < |chunks|
      invariant 0 <= m <= i <= |chunks|
      invariant StartsAt(chunks, m, i, measureStart) && PointsOf(points, total, chunks, m, i, measureStart)
    {
      StartsMove(chunks, m, i, measureStart, end);
      hide *;
      if chunks[i].now < measureStart {
        NoPointsYet(points, total, chunks, m, i, measureStart);
        m := i + 1;
      } else {
        PointsGrow(points, total, chunks, m, i, measureStart);
        total := total + chunks[i].size;
        points := points + [Point(chunks[i].now - measureStart, total as real)];
      }
      i := i + 1;
    }
    PointsAreMonotone(points, total, chunks, m, i, measureStart, end);
  }

  lemma RateOrder(b: real, t: real, b': real, t': real)
    requires t > 0.0 && t' > 0.0
    ensures ThroughputMbps(b, t) <= ThroughputMbps(b', t') <==> b * t' <= b' * t
  {
    var r, r' := ThroughputMbps(b, t), ThroughputMbps(b', t');
    assert r * (t * 1000.0) == b * 8.0 && r' * (t' * 1000.0) == b' * 8.0;
    assert (r' - r) * (t * t') * 1000.0 == (b' * t - b * t') * 8.0;
    assert t * t' > 0.0;
    if r' >= r {
      assert (r' - r) * (t * t') >= 0.0;
    } else {
      assert (r - r') * (t * t') > 0.0;
    }
  }

  // A head of b bytes in t ms is no faster than the whole, cross-multiplied: t may be zero.
  predicate NoFaster(b: real, t: real, bytes: real, ms: real) {
    b * ms <= bytes * t
  }

  // A whole and what is left of it without its head: the rest is at least as fast as the whole
  // exactly when the head was at most as fast.
  lemma Mediant(b: real, t: real, bytes: real, ms: real)
    requires 0.0 <= t < ms
    ensures ThroughputMbps(bytes - b, ms - t) >= ThroughputMbps(bytes, ms) <==> NoFaster(b, t, bytes, ms)
    ensures t > 0.0 ==> (NoFaster(b, t, bytes, ms) <==> ThroughputMbps(b, t) <= ThroughputMbps(bytes, ms))
  {
    hide ThroughputMbps;
    RateOrder(bytes, ms, bytes - b, ms - t);
    assert bytes * (ms - t) == bytes * ms - bytes * t;
    assert (bytes - b) * ms == bytes * ms - b * ms;
    if t > 0.0 {
      RateOrder(b, t, bytes, ms);
    }
  }

  // r Mbps sustained for ms milliseconds is this many bytes; no time at all shows as no rate.
  predicate IsRate(r: real, bytes: real, ms: real) {
    if ms <= 0.0 then r == 0.0 else r * (ms * 1000.0) == bytes * 8.0
  }

  lemma ThroughputIsRate(bytes: real, ms: real)
    ensures IsRate(ThroughputMbps(bytes, ms), bytes, ms)
  {
  }

  // Without a warm-up, or when no point reaches its end, the result is the rate of the whole.
  lemma ShortTestIsWhole(points: seq<Point>, totalBytes: real, totalMs: real, warmupMs: real)
    requires warmupMs <= 0.0 || forall p :: p in points ==> p.elapsedMs < warmupMs
    ensures IsRate(TrimThroughput(points, totalBytes, totalMs, warmupMs), totalBytes, totalMs)
  {
    var i := FirstFrom(points, warmupMs);
    assert i >= 0 ==> points[i] in points;
    ThroughputIsRate(totalBytes, totalMs);
    hide ThroughputMbps, IsRate;
  }

  lemma AroundPoint(points: seq<Point>, totalBytes: real, totalMs: real, i: nat)
    requires Monotone(points, totalBytes, totalMs) && i < |points|
    ensures 0.0 <= points[i].elapsedMs <= totalMs && 0.0 <= points[i].bytes <= totalBytes
    ensures forall k :: 0 <= k <= i ==> points[k].elapsedMs <= points[i].elapsedMs && points[k].bytes <= points[i].bytes
    ensures forall k :: i <= k < |points| ==> points[i].elapsedMs <= points[k].elapsedMs
  {
  }

  // The baseline is the last point inside the warm-up, or the start.
  lemma BaselineIsLast(points: seq<Point>, totalBytes: real, totalMs: real, warmupMs: real)
    requires Monotone(points, totalBytes, totalMs) && warmupMs > 0.0 && FirstFrom(points, warmupMs) >= 0
    ensures var b := Baseline(points, warmupMs);
            && (b == Point(0.0, 0.0) || b in points)
            && 0.0 <= b.elapsedMs < warmupMs <= totalMs && 0.0 <= b.bytes <= totalBytes
            && (forall k :: 0 <= k < |points| && points[k].elapsedMs < warmupMs ==>
                  points[k].elapsedMs <= b.elapsedMs && points[k].bytes <= b.bytes)
  {
    hide Monotone;
    var i := FirstFrom(points, warmupMs);
    AroundPoint(points, totalBytes, totalMs, i);
    if i > 0 {
      AroundPoint(points, totalBytes, totalMs, i - 1);
      assert points[i - 1] in points;
    }
  }

  /* When a point reaches the warm-up boundary, the time after the baseline is positive, the
     result times that time is exactly the bytes after the baseline, and trimming does not lower
     the result exactly when the head was no faster than the whole. */
  lemma TrimDropsASlowStart(points: seq<Point>, totalBytes: real, totalMs: real, warmupMs: real)
    requires Monotone(points, totalBytes, totalMs) && warmupMs > 0.0 && FirstFrom(points, warmupMs) >= 0
    ensures var b := Baseline(points, warmupMs);
            var trimmed := TrimThroughput(points, totalBytes, totalMs, warmupMs);
            var whole := ThroughputMbps(totalBytes, totalMs);
            && totalMs - b.elapsedMs > 0.0
            && IsRate(trimmed, totalBytes - b.bytes, totalMs - b.elapsedMs)
            && (trimmed >= whole <==> NoFaster(b.bytes, b.elapsedMs, totalBytes, totalMs))
            && (b.elapsedMs > 0.0 ==> (trimmed >= whole <==> ThroughputMbps(b.bytes, b.elapsedMs) <= whole))
  {
    var b := Baseline(points, warmupMs);
    BaselineIsLast(points, totalBytes, totalMs, warmupMs);
    hide ThroughputMbps, Monotone, Baseline, FirstFrom, IsRate, NoFaster;
    ThroughputIsRate(totalBytes - b.bytes, totalMs - b.elapsedMs);
    Mediant(b.bytes, b.elapsedMs, totalBytes, totalMs);
  }

  // Bytes counted in no time at all are a head of rate 0 by the gauge, and yet trimming them
  // lowers the result.
  lemma InstantHeadLowers()
    ensures var points, warmupMs := [Point(0.0, 100.0), Point(2000.0, 200.0)], 2000.0;
            var b := Baseline(points, warmupMs);
            && Monotone(points, 200.0, 2000.0) && FirstFrom(points, warmupMs) >= 0
            && ThroughputMbps(b.bytes, b.elapsedMs) == 0.0 && ThroughputMbps(200.0, 2000.0) == 0.0008
            && TrimThroughput(points, 200.0, 2000.0, warmupMs) < ThroughputMbps(200.0, 2000.0)
  {
    var points, warmupMs := [Point(0.0, 100.0), Point(2000.0, 200.0)], 2000.0;
    assert FirstFrom(points, warmupMs) == 1;
    assert Baseline(points, warmupMs) == points[0];
    TrimDropsASlowStart(points, 200.0, 2000.0, warmupMs);
  }
}
