/**
 Size-mode transfers: how the page splits a byte count over parallel streams, what the server
 sends for each, and what the upload workers send.
 */
module Transfer {
  import opened Wrappers

  const MIB := 1024 * 1024
  const PAYLOAD := 1024 * 1024
  const CHUNK := 1024 * 1024
  const MAX_BYTES_PER_STREAM := 1024 * 1024 * 1024

  // ---- the page's shares --------------------------------------------------------------

  function Share(total: nat, streams: nat, i: nat): nat
    requires streams > 0
  {
    total / streams + if i < total % streams then 1 else 0
  }

  function SumShares(total: nat, streams: nat, k: nat): nat
    requires streams > 0
  {
    if k == 0 then 0 else SumShares(total, streams, k - 1) + Share(total, streams, k - 1)
  }

  lemma {:induction false} SharesSoFar(total: nat, streams: nat, k: nat)
    requires streams > 0 && k <= streams
    ensures SumShares(total, streams, k) == k * (total / streams) + Min(k, total % streams)
  {
    if k > 0 {
      SharesSoFar(total, streams, k - 1);
      var q := total / streams;
      assert k * q == (k - 1) * q + q;
    }
  }

  // No byte is lost or asked for twice, no stream gets two bytes more than another, and the
  // longer shares come first.
  lemma SharesSplitTotal(total: nat, streams: nat, i: nat, j: nat)
    requires streams > 0 && i < streams && j < streams
    ensures SumShares(total, streams, streams) == total
    ensures Share(total, streams, i) - Share(total, streams, j) <= 1
    ensures i <= j ==> Share(total, streams, i) >= Share(total, streams, j)
  {
    SharesSoFar(total, streams, streams);
  }

  // ---- the server's byte count --------------------------------------------------------

  // A query parameter: missing, not an integer, or an integer.
  datatype Param = Absent | Malformed | Number(n: int)

  predicate Within(p: Param, lo: int, hi: int) {
    p.Number? && lo <= p.n <= hi
  }

  // What the server sends when it accepts no other size.
  function DefaultBytes(configMB: nat): nat {
    configMB * MIB
  }

  function BytesToSend(configMB: nat, bytes: Param, size: Param): nat {
    if !bytes.Absent? then if Within(bytes, 1, MAX_BYTES_PER_STREAM) then bytes.n else DefaultBytes(configMB)
    else if !size.Absent? then if Within(size, 1, 1024) then size.n * MIB else DefaultBytes(configMB)
    else DefaultBytes(configMB)
  }

  // `bytes` wins over `size`, and each is ignored unless it is a number in its range: up to 1 GiB
  // for the one, up to 1024 MiB for the other.
  lemma RequestedBytes(configMB: nat, n: int, size: Param)
    ensures BytesToSend(configMB, Number(n), size) == if 1 <= n <= 1_073_741_824 then n else configMB * 1_048_576
    ensures BytesToSend(configMB, Malformed, size) == configMB * 1_048_576
    ensures BytesToSend(configMB, Absent, Number(n)) == (if 1 <= n <= 1024 then n else configMB) * 1_048_576
    ensures BytesToSend(configMB, Absent, Malformed) == BytesToSend(configMB, Absent, Absent) == configMB * 1_048_576
  {
  }

  function Sum(xs: seq<nat>): nat {
    if xs == [] then 0 else Sum(xs[..|xs| - 1]) + xs[|xs| - 1]
  }

  // The response writer's k-th write of n bytes: how many it took, and whether it failed.
  type Writer = (nat, nat) -> (nat, bool)

  // What io.Writer promises: never more than asked, and an error whenever less.
  ghost predicate IsWriter(w: Writer) {
    forall k: nat, n: nat :: w(k, n).0 <= n && (w(k, n).0 < n ==> w(k, n).1)
  }

  ghost predicate NeverFails(w: Writer) {
    forall k: nat, n: nat :: w(k, n) == (n, false)
  }

  // The bytes that go out when `left` remain before write k.
  ghost function Sent(w: Writer, left: int, k: nat): nat
    requires IsWriter(w)
    decreases left
  {
    if left <= 0 then 0
    else
      var n := Min(PAYLOAD, left);
      var (m, failed) := w(k, n);
      if failed then m else m + Sent(w, left - m, k + 1)
  }

  // What the writer does with the last write: it asks for what was left before it, at most 1 MiB.
  ghost function LastWrite(w: Writer, total: int, took: seq<nat>): (nat, bool)
    requires took != [] && Sum(took[..|took| - 1]) < total
  {
    w(|took| - 1, Min(1_048_576, total - Sum(took[..|took| - 1])))
  }

  // The writes of a download, by what each took: there is another one as long as bytes are left
  // and none has failed.
  ghost predicate AreWrites(w: Writer, total: int, took: seq<nat>) {
    took == []
    || (
         var before := took[..|took| - 1];
         && Sum(before) < total && AreWrites(w, total, before)
         && (before != [] ==> !LastWrite(w, total, before).1)
         && took[|took| - 1] == LastWrite(w, total, took).0
       )
  }

  lemma OneMoreWrite(w: Writer, total: int, took: seq<nat>, m: nat, failed: bool)
    requires AreWrites(w, total, took) && Sum(took) < total
    requires took != [] ==> !LastWrite(w, total, took).1
    requires (m, failed) == w(|took|, Min(1_048_576, total - Sum(took)))
    ensures AreWrites(w, total, took + [m]) && Sum(took + [m]) == Sum(took) + m
    ensures LastWrite(w, total, took + [m]) == (m, failed)
  {
    assert (took + [m])[..|took|] == took;
  }

  // `took` is what each write took: the download counts all of it, a last failing write included,
  // and ends with the total or with that failure.
  method DownloadBySize(w: Writer, total: int) returns (written: nat, ghost took: seq<nat>)
    requires IsWriter(w)
    ensures AreWrites(w, total, took) && written == Sum(took)
    ensures written >= total || (took != [] && LastWrite(w, total, took).1)
    ensures written == Sent(w, total, 0)
  {
    written, took := 0, [];
    hide LastWrite;
    var k := 0;
    while written < total
      invariant k == |took| && AreWrites(w, total, took) && written == Sum(took)
      invariant took != [] ==> !LastWrite(w, total, took).1
      invariant written + Sent(w, total - written, k) == Sent(w, total, 0)
      decreases total - written
    {
      var n := PAYLOAD;
      if written + n > total {
        n := total - written;
      }
      var (m, failed) := w(k, n);
      OneMoreWrite(w, total, took, m, failed);
      written, took := written + m, took + [m];
      if failed {
        return;
      }
      k := k + 1;
    }
  }

  // One of the writes that are made when `left` remain before write k reports an error.
  ghost predicate SomeWriteFails(w: Writer, left: int, k: nat)
    requires IsWriter(w)
    decreases left
  {
    left > 0 &&
    var (m, failed) := w(k, Min(PAYLOAD, left));
    failed || SomeWriteFails(w, left - m, k + 1)
  }

  // Never too much; and all of it unless a write that is made fails.
  lemma {:induction false} SentIsTotal(w: Writer, left: int, k: nat)
    requires IsWriter(w)
    ensures Sent(w, left, k) <= if left > 0 then left else 0
    ensures left >= 0 && !SomeWriteFails(w, left, k) ==> Sent(w, left, k) == left
    ensures NeverFails(w) ==> !SomeWriteFails(w, left, k)
    decreases left
  {
    if left > 0 {
      var n := Min(PAYLOAD, left);
      var (m, failed) := w(k, n);
      if !failed {
        SentIsTotal(w, left - m, k + 1);
      }
    }
  }

  // What the server sends for stream i of a size-mode download on a connection that holds.
  function ServedShare(configMB: nat, total: nat, streams: nat, i: nat): nat
    requires streams > 0
  {
    BytesToSend(configMB, Number(Share(total, streams, i)), Absent)
  }

  function SumServed(configMB: nat, total: nat, streams: nat, k: nat): nat
    requires streams > 0
  {
    if k == 0 then 0 else SumServed(configMB, total, streams, k - 1) + ServedShare(configMB, total, streams, k - 1)
  }

  // Every share is one the server accepts.
  predicate SharesAccepted(total: nat, streams: nat)
    requires streams > 0
  {
    1 <= total / streams && Share(total, streams, 0) <= MAX_BYTES_PER_STREAM
  }

  lemma {:induction false} AcceptedSharesAreServed(configMB: nat, total: nat, streams: nat, k: nat)
    requires streams > 0 && k <= streams && SharesAccepted(total, streams)
    ensures SumServed(configMB, total, streams, k) == SumShares(total, streams, k)
  {
    if k > 0 {
      AcceptedSharesAreServed(configMB, total, streams, k - 1);
    }
  }

  lemma Times(n: int, x: int)
    ensures (n + 1) * x == n * x + x
  {
  }

  lemma AtLeast(n: nat, x: nat)
    requires n > 0 && x > 0
    ensures n * x >= n
  {
  }

  // Fewer bytes than streams: a stream whose share is zero gets a whole default download.
  lemma {:induction false} EmptySharesServed(configMB: nat, total: nat, streams: nat, k: nat)
    requires streams > 0 && total / streams == 0 && k <= streams
    ensures SumServed(configMB, total, streams, k)
            == Min(k, total % streams) + Surplus(k, total % streams) * DefaultBytes(configMB)
  {
    if k > 0 {
      EmptySharesServed(configMB, total, streams, k - 1);
      assert ServedShare(configMB, total, streams, k - 1)
          == if k - 1 < total % streams then 1 else DefaultBytes(configMB);
      hide ServedShare, Share;
      Times(k - 1 - total % streams, DefaultBytes(configMB));
    }
  }

  function Surplus(k: nat, r: nat): nat {
    if k > r then k - r else 0
  }

  // Every share above the cap: every stream gets a whole default download.
  lemma {:induction false} LargeSharesServed(configMB: nat, total: nat, streams: nat, k: nat)
    requires streams > 0 && total / streams > MAX_BYTES_PER_STREAM && k <= streams
    ensures SumServed(configMB, total, streams, k) == k * DefaultBytes(configMB)
  {
    if k > 0 {
      LargeSharesServed(configMB, total, streams, k - 1);
      assert ServedShare(configMB, total, streams, k - 1) == DefaultBytes(configMB);
      hide ServedShare;
      Times(k - 1, DefaultBytes(configMB));
    }
  }

  // Only the longer shares above the cap: just those streams get a whole default download.
  lemma {:induction false} EdgeSharesServed(configMB: nat, total: nat, streams: nat, k: nat)
    requires streams > 0 && total / streams == MAX_BYTES_PER_STREAM && k <= streams
    ensures var r := total % streams;
            SumServed(configMB, total, streams, k)
            == Min(k, r) * DefaultBytes(configMB) + Surplus(k, r) * MAX_BYTES_PER_STREAM
  {
    if k > 0 {
      EdgeSharesServed(configMB, total, streams, k - 1);
      assert ServedShare(configMB, total, streams, k - 1)
          == if k - 1 < total % streams then DefaultBytes(configMB) else MAX_BYTES_PER_STREAM;
      hide ServedShare;
      Times(k - 1, DefaultBytes(configMB));
    }
  }

  lemma Divided(total: nat, streams: nat)
    requires streams > 0
    ensures 0 <= total % streams < streams
    ensures total == streams * (total / streams) + total % streams
    ensures total / streams > 0 ==> total >= streams
    ensures total / streams == 0 ==> total == total % streams
    ensures total / streams == MAX_BYTES_PER_STREAM ==> total == streams * MAX_BYTES_PER_STREAM + total % streams
  {
    if total / streams > 0 {
      AtLeast(streams, total / streams);
    }
  }

  lemma EmptyMisses(whole: nat, streams: nat, total: nat)
    requires total < streams
    ensures total + (streams - total) * whole == total <==> whole == 0
    ensures total == streams * whole ==> whole == 0
  {
    if whole > 0 {
      AtLeast(streams - total, whole);
      AtLeast(streams, whole);
    }
  }

  // A default download is a multiple of 1 MiB, so it never stands in for a share of 1 GiB and a byte.
  lemma EdgeMisses(whole: nat, streams: nat, r: nat)
    requires 0 < r < streams && whole % MIB == 0
    ensures r * whole + (streams - r) * MAX_BYTES_PER_STREAM != streams * MAX_BYTES_PER_STREAM + r
    ensures streams * whole != streams * MAX_BYTES_PER_STREAM + r
  {
    var cap := MAX_BYTES_PER_STREAM;
    var d := whole - cap;
    assert r * whole + (streams - r) * cap == streams * cap + r * d;
    assert streams * whole == streams * cap + streams * d;
    if d >= 1 {
      assert d != 1;
      assert r * d >= r * 2 && streams * d >= streams;
    } else {
      assert r * d <= 0 && streams * d <= 0;
    }
  }

  lemma EmptyCase(configMB: nat, total: nat, streams: nat)
    requires streams > 0 && total / streams == 0
    ensures total < streams
    ensures SumServed(configMB, total, streams, streams) == total <==> DefaultBytes(configMB) == 0
    ensures total == streams * DefaultBytes(configMB) ==> DefaultBytes(configMB) == 0
  {
    hide SumServed, DefaultBytes;
    Divided(total, streams);
    EmptySharesServed(configMB, total, streams, streams);
    EmptyMisses(DefaultBytes(configMB), streams, total);
  }

  lemma EdgeCase(configMB: nat, total: nat, streams: nat)
    requires streams > 0 && total / streams == MAX_BYTES_PER_STREAM && total % streams > 0
    ensures SumServed(configMB, total, streams, streams) != total
    ensures total != streams * DefaultBytes(configMB)
  {
    assert DefaultBytes(configMB) % MIB == 0;
    hide SumServed, DefaultBytes;
    Divided(total, streams);
    EdgeSharesServed(configMB, total, streams, streams);
    EdgeMisses(DefaultBytes(configMB), streams, total % streams);
  }

  /* The streams together receive exactly the requested bytes if and only if every share is one
     the server accepts, or the default downloads it serves instead happen to make up the total:
     one for each stream, or empty ones for the streams without a byte. */
  lemma StreamsReceiveTotalIff(configMB: nat, total: nat, streams: nat)
    requires streams > 0
    ensures SumServed(configMB, total, streams, streams) == total
            <==> || SharesAccepted(total, streams)
                 || total == streams * DefaultBytes(configMB)
                 || (DefaultBytes(configMB) == 0 && total < streams)
  {
    assert !SharesAccepted(total, streams) ==>
             || total / streams == 0 || total / streams > MAX_BYTES_PER_STREAM
             || (total / streams == MAX_BYTES_PER_STREAM && total % streams > 0);
    hide SumServed, SharesAccepted, DefaultBytes;
    if SharesAccepted(total, streams) {
      AcceptedSharesAreServed(configMB, total, streams, streams);
      SharesSplitTotal(total, streams, 0, 0);
    } else if total / streams == 0 {
      EmptyCase(configMB, total, streams);
    } else if total / streams > MAX_BYTES_PER_STREAM {
      LargeSharesServed(configMB, total, streams, streams);
      Divided(total, streams);
    } else {
      EdgeCase(configMB, total, streams);
    }
  }

  lemma AcceptedIff(total: nat, streams: nat)
    requires 0 < streams <= total
    ensures SharesAccepted(total, streams) <==> total <= streams * MAX_BYTES_PER_STREAM
  {
    var q, r, cap := total / streams, total % streams, MAX_BYTES_PER_STREAM;
    Divided(total, streams);
    assert q >= 1 && Share(total, streams, 0) == q + if r > 0 then 1 else 0;
    hide Share;
    if q + 1 <= cap {
      Ordered(streams, q + 1, cap);
      Times(q, streams);
    } else if q > cap {
      Ordered(streams, cap + 1, q);
      Times(cap, streams);
    }
  }

  lemma Ordered(n: nat, x: int, y: int)
    requires x <= y
    ensures n * x <= n * y
  {
  }

  // Whole megabytes asked for over at most 32 streams, which is what the page's settings allow:
  // the shares have to fit, or the server's default has to be just one stream's part.
  lemma PageReceivesTotalIff(configMB: nat, pageMB: nat, streams: nat)
    requires 1 <= configMB && 1 <= pageMB && 1 <= streams <= 32
    ensures SumServed(configMB, pageMB * MIB, streams, streams) == pageMB * MIB
            <==> pageMB <= 1024 * streams || pageMB == streams * configMB
  {
    var total := pageMB * MIB;
    assert streams * (configMB * MIB) == (streams * configMB) * MIB;
    assert total >= streams && DefaultBytes(configMB) == configMB * MIB;
    StreamsReceiveTotalIff(configMB, total, streams);
    AcceptedIff(total, streams);
    hide SumServed, SharesAccepted, DefaultBytes;
  }

  // A page that asks for 2 GiB in one stream gets too little from a server set to 25 MiB, and too
  // much from one set to 10 GiB.
  lemma DefaultsMiss()
    ensures SumServed(25, 2_147_483_648, 1, 1) == 26_214_400
    ensures SumServed(10240, 2_147_483_648, 1, 1) == 10_737_418_240
  {
    LargeSharesServed(25, 2048 * MIB, 1, 1);
    LargeSharesServed(10240, 2048 * MIB, 1, 1);
  }

  // ---- upload workers -----------------------------------------------------------------

  // Posts of one worker: full chunks, then the rest, and none after the signal.
  ghost predicate ArePosts(posts: seq<nat>, aborted: nat -> bool) {
    forall k :: 0 <= k < |posts| ==>
      !aborted(k) && 1 <= posts[k] <= 1_048_576 && (k < |posts| - 1 ==> posts[k] == 1_048_576)
  }

  // One worker: full chunks, then the rest.  `aborted(k)` is the signal before post k.
  method WorkerSize(total: nat, streams: nat, aborted: nat -> bool) returns (posts: seq<nat>)
    requires streams > 0
    ensures Sum(posts) <= CeilDiv(total, streams)
    ensures Sum(posts) == CeilDiv(total, streams) || aborted(|posts|)
    ensures ArePosts(posts, aborted)
  {
    var remaining := CeilDiv(total, streams);
    posts := [];
    while remaining > 0 && !aborted(|posts|)
      invariant Sum(posts) + remaining == CeilDiv(total, streams)
      invariant remaining >= 0
      invariant forall i :: 0 <= i < |posts| ==>
                  !aborted(i) && 1 <= posts[i] <= CHUNK && (i < |posts| - 1 || remaining > 0 ==> posts[i] == CHUNK)
      decreases remaining
    {
      var slice := if remaining >= CHUNK then CHUNK else remaining;
      remaining := remaining - slice;
      assert (posts + [slice])[..|posts|] == posts;
      posts := posts + [slice];
    }
  }

  // Rounding up covers the total, and overshoots it by less than one byte a stream.
  lemma WorkersCoverTotal(total: nat, streams: nat)
    requires streams > 0
    ensures total <= streams * CeilDiv(total, streams) < total + streams
  {
    var r := CeilDiv(total, streams);
    assert (r - 1) * streams == r * streams - streams;
  }

  function SumAll(posts: seq<seq<nat>>): nat {
    if posts == [] then 0 else SumAll(posts[..|posts| - 1]) + Sum(posts[|posts| - 1])
  }

  lemma SumAllStep(posts: seq<seq<nat>>, worker: seq<nat>)
    ensures SumAll(posts + [worker]) == SumAll(posts) + Sum(worker)
  {
    assert (posts + [worker])[..|posts|] == posts;
  }

  lemma Accumulate(sum: nat, i: nat, part: nat, x: nat)
    requires sum <= i * part && x <= part
    ensures sum + x <= (i + 1) * part
    ensures sum == i * part && x == part ==> sum + x == (i + 1) * part
  {
    Times(i, part);
  }

  // The first workers are done: their posts, and what they add up to.
  ghost predicate UploadSoFar(posts: seq<seq<nat>>, part: nat, aborted: nat -> nat -> bool) {
    && SumAll(posts) <= |posts| * part
    && (SumAll(posts) == |posts| * part || exists j: nat :: j < |posts| && aborted(j)(|posts[j]|))
    && (forall j: nat :: j < |posts| ==> ArePosts(posts[j], aborted(j)))
  }

  lemma NoWorkersYet(part: nat, aborted: nat -> nat -> bool)
    ensures UploadSoFar([], part, aborted)
  {
  }

  lemma UploadGoesOn(posts: seq<seq<nat>>, worker: seq<nat>, part: nat, aborted: nat -> nat -> bool)
    requires UploadSoFar(posts, part, aborted)
    requires Sum(worker) <= part && (Sum(worker) == part || aborted(|posts|)(|worker|))
    requires ArePosts(worker, aborted(|posts|))
    ensures UploadSoFar(posts + [worker], part, aborted)
  {
    hide ArePosts, Sum, SumAll;
    var all, i := posts + [worker], |posts|;
    SumAllStep(posts, worker);
    Accumulate(SumAll(posts), i, part, Sum(worker));
    assert all[i] == worker && forall j: nat :: j < i ==> all[j] == posts[j];
    if j: nat :| j < i && aborted(j)(|posts[j]|) {
      assert aborted(j)(|all[j]|);
    }
  }

  lemma UploadIsDone(posts: seq<seq<nat>>, part: nat, aborted: nat -> nat -> bool)
    requires UploadSoFar(posts, part, aborted)
    ensures SumAll(posts) <= |posts| * part
    ensures SumAll(posts) == |posts| * part || exists j: nat :: j < |posts| && aborted(j)(|posts[j]|)
    ensures forall j: nat :: j < |posts| ==> ArePosts(posts[j], aborted(j))
  {
  }

  // All the workers: together they send at least the total, unless one of them was aborted, and
  // less than one byte a stream more.  `aborted(i)` is the signal of worker i before each post.
  method Upload(total: nat, streams: nat, aborted: nat -> nat -> bool) returns (posts: seq<seq<nat>>)
    requires streams > 0
    ensures |posts| == streams
    ensures SumAll(posts) < total + streams
    ensures total <= SumAll(posts) || exists i: nat :: i < streams && aborted(i)(|posts[i]|)
    ensures forall i: nat :: i < streams ==> ArePosts(posts[i], aborted(i))
  {
    hide ArePosts, Sum, SumAll, CeilDiv, UploadSoFar;
    var part := CeilDiv(total, streams);
    WorkersCoverTotal(total, streams);
    posts := [];
    NoWorkersYet(part, aborted);
    for i := 0 to streams
      invariant |posts| == i && UploadSoFar(posts, part, aborted)
    {
      var worker := WorkerSize(total, streams, aborted(i));
      UploadGoesOn(posts, worker, part, aborted);
      posts := posts + [worker];
    }
    UploadIsDone(posts, part, aborted);
  }
}
