/**
 Runs of the per-IP limiter: a map of token buckets that a garbage collector thins out,
 against the limiter that never forgets an IP.

 An event list is one interleaving of requests and sweeps.  One `allow` is atomic for its IP.
 */
module RateLimiterRuns {
  import opened TokenBucket

  type Ip = string

  datatype Event = Request(ip: Ip, at: int) | Gc(at: int)

  datatype Answer = Answered(verdict: Verdict) | Swept

  // The two maps of the limiter: a bucket and the time of the last lookup for each IP.
  datatype Table = Table(buckets: map<Ip, Bucket>, seen: map<Ip, int>)

  const EMPTY_TABLE := Table(map[], map[])

  function Lookup(q: Rate, s: Table, ip: Ip, now: int): Bucket {
    if ip in s.buckets then s.buckets[ip] else Full(q, now)
  }

  function AllowStep(q: Rate, s: Table, ip: Ip, now: int): (Table, Verdict) {
    var (b, v) := Ask(q, Lookup(q, s, ip, now), now);
    (Table(s.buckets[ip := b], s.seen[ip := now]), v)
  }

  function Idle(s: Table, now: int, ttl: int): set<Ip> {
    set ip | ip in s.seen && s.seen[ip] < now - ttl
  }

  function GcStep(s: Table, now: int, ttl: int): Table {
    Table(s.buckets - Idle(s, now, ttl), s.seen - Idle(s, now, ttl))
  }

  // ---- the limiter with eviction ------------------------------------------------------

  function Step(q: Rate, ttl: int, s: Table, e: Event): Table {
    match e
    case Request(ip, at) => AllowStep(q, s, ip, at).0
    case Gc(at) => GcStep(s, at, ttl)
  }

  function Next(q: Rate, s: Table, e: Event): Answer {
    match e
    case Request(ip, at) => Answered(AllowStep(q, s, ip, at).1)
    case Gc(_) => Swept
  }

  function After(q: Rate, ttl: int, es: seq<Event>): Table {
    if es == [] then EMPTY_TABLE else Step(q, ttl, After(q, ttl, es[..|es| - 1]), es[|es| - 1])
  }

  function AnswerAt(q: Rate, ttl: int, es: seq<Event>, i: nat): Answer
    requires i < |es|
  {
    Next(q, After(q, ttl, es[..i]), es[i])
  }

  function Answers(q: Rate, ttl: int, es: seq<Event>): (r: seq<Answer>)
    ensures |r| == |es|
  {
    seq(|es|, i requires 0 <= i < |es| => AnswerAt(q, ttl, es, i))
  }

  // One more event is one more step and one more answer.
  lemma RunAppend(q: Rate, ttl: int, es: seq<Event>, e: Event)
    ensures After(q, ttl, es + [e]) == Step(q, ttl, After(q, ttl, es), e)
    ensures Answers(q, ttl, es + [e]) == Answers(q, ttl, es) + [Next(q, After(q, ttl, es), e)]
  {
    hide Step, Next;
    var es' := es + [e];
    assert es'[..|es|] == es;
    forall k | 0 <= k < |es|
      ensures AnswerAt(q, ttl, es', k) == AnswerAt(q, ttl, es, k)
    {
      assert es'[..k] == es[..k];
    }
  }

  // ---- the limiter that never evicts --------------------------------------------------

  // The bucket of one IP depends on that IP's requests alone and starts full.
  function BucketOf(q: Rate, ip: Ip, es: seq<Event>): Bucket {
    if es == [] then Full(q, 0)
    else
      var b := BucketOf(q, ip, es[..|es| - 1]);
      var e := es[|es| - 1];
      if e.Request? && e.ip == ip then Ask(q, b, e.at).0 else b
  }

  function RefAnswerAt(q: Rate, es: seq<Event>, i: nat): Answer
    requires i < |es|
  {
    match es[i]
    case Request(ip, at) => Answered(Ask(q, BucketOf(q, ip, es[..i]), at).1)
    case Gc(_) => Swept
  }

  // ---- runs the clock allows ----------------------------------------------------------

  // No request is dated before an earlier request or an earlier sweep.
  ghost predicate WellTimed(es: seq<Event>) {
    forall i, j :: 0 <= i < j < |es| && es[j].Request? ==> es[i].at <= es[j].at
  }

  ghost predicate NoLater(es: seq<Event>, t: int) {
    forall k :: 0 <= k < |es| ==> es[k].at <= t
  }

  predicate IsFrom(e: Event, ip: Ip) {
    e.Request? && e.ip == ip
  }

  // No request of `ip` is dated after t; sweeps and other IPs may be.
  ghost predicate DoneBy(es: seq<Event>, ip: Ip, t: int) {
    forall k :: 0 <= k < |es| && IsFrom(es[k], ip) ==> es[k].at <= t
  }

  lemma SplitLast(es: seq<Event>)
    requires es != [] && WellTimed(es)
    ensures WellTimed(es[..|es| - 1])
    ensures es[|es| - 1].Request? ==> NoLater(es[..|es| - 1], es[|es| - 1].at)
  {
  }

  // ---- the bucket of one IP -----------------------------------------------------------

  // A bucket is full from the start, or was last moved by a request of its IP.
  lemma {:induction false} BucketHistory(q: Rate, ip: Ip, es: seq<Event>)
    requires q.Valid()
    ensures var b := BucketOf(q, ip, es);
            && Sane(q, b)
            && (b == Full(q, 0) || exists k :: 0 <= k < |es| && es[k] == Request(ip, b.last))
  {
    if es == [] {
      CapAtLeastToken(q);
    } else {
      var n := |es| - 1;
      BucketHistory(q, ip, es[..n]);
      var b := BucketOf(q, ip, es[..n]);
      if es[n].Request? && es[n].ip == ip {
        AskSpends(q, b, es[n].at);
        assert es[n] == Request(ip, BucketOf(q, ip, es).last);
      } else if b != Full(q, 0) {
        var k :| 0 <= k < n && es[..n][k] == Request(ip, b.last);
        assert es[k] == Request(ip, b.last);
      }
    }
  }

  lemma FullStaysFull(q: Rate, now: int)
    requires q.Valid()
    ensures Credit(q, Full(q, 0), now) == q.Cap()
  {
    CapAtLeastToken(q);
    CreditBounds(q, Full(q, 0), now);
  }

  // Looking at the bucket now or first at an earlier t makes no difference.
  lemma CreditVia(q: Rate, ip: Ip, es: seq<Event>, t1: int, t2: int)
    requires q.Valid() && DoneBy(es, ip, t1) && t1 <= t2
    ensures Credit(q, Bucket(Credit(q, BucketOf(q, ip, es), t1), t1), t2) == Credit(q, BucketOf(q, ip, es), t2)
  {
    BucketHistory(q, ip, es);
    var b := BucketOf(q, ip, es);
    CapAtLeastToken(q);
    if b == Full(q, 0) {
      FullStaysFull(q, t1);
      FullStaysFull(q, t2);
      CreditBounds(q, Bucket(q.Cap(), t1), t2);
    } else {
      CreditComposes(q, b, t1, t2);
    }
  }

  lemma CreditLater(q: Rate, ip: Ip, es: seq<Event>, t1: int, t2: int)
    requires q.Valid() && DoneBy(es, ip, t1) && t1 <= t2
    ensures Credit(q, BucketOf(q, ip, es), t2) <= Credit(q, BucketOf(q, ip, es), t1) + q.perMin * (t2 - t1)
  {
    CreditVia(q, ip, es, t1, t2);
    EarnedGrows(q.perMin, 0, t2 - t1);
  }

  // ---- eviction cannot be observed ----------------------------------------------------

  /* The simulation: a kept entry is the never-evicted bucket itself, and an IP without an
     entry has a bucket that is full again by any time a request can come. */
  lemma {:induction false} EntryMatchesHistory(q: Rate, ttl: int, es: seq<Event>, ip: Ip, t: int)
    requires q.Valid() && ttl >= 60 * q.unit - 1
    requires WellTimed(es) && NoLater(es, t)
    ensures var s := After(q, ttl, es);
            var b := BucketOf(q, ip, es);
            && s.buckets.Keys == s.seen.Keys
            && (ip in s.buckets ==> s.buckets[ip] == b && s.seen[ip] == b.last)
            && (ip !in s.buckets ==> Credit(q, b, t) == q.Cap())
  {
    if es == [] {
      FullStaysFull(q, t);
    } else {
      var n := |es| - 1;
      var e, es' := es[n], es[..n];
      SplitLast(es);
      BucketHistory(q, ip, es');
      var s, b := After(q, ttl, es'), BucketOf(q, ip, es');
      match e
      case Request(ip', at) =>
        EntryMatchesHistory(q, ttl, es', ip, if ip' == ip then at else t);
        if ip' == ip {
          CapAtLeastToken(q);
          AskSpends(q, b, at);
          AskSpends(q, Full(q, at), at);
          CreditBounds(q, Full(q, at), at);
        }
      case Gc(at) =>
        EntryMatchesHistory(q, ttl, es', ip, t);
        if ip in Idle(s, at, ttl) {
          MinuteRefills(q, b, t);
        }
    }
  }

  function RefAnswers(q: Rate, es: seq<Event>): (r: seq<Answer>)
    ensures |r| == |es|
  {
    seq(|es|, i requires 0 <= i < |es| => RefAnswerAt(q, es, i))
  }

  ghost predicate EvictionUnobservable(q: Rate, ttl: int) {
    forall es | WellTimed(es) :: Answers(q, ttl, es) == RefAnswers(q, es)
  }

  lemma SameAnswers(q: Rate, ttl: int, es: seq<Event>)
    requires q.Valid() && ttl >= 60 * q.unit - 1 && WellTimed(es)
    ensures Answers(q, ttl, es) == RefAnswers(q, es)
  {
    forall i | 0 <= i < |es|
      ensures AnswerAt(q, ttl, es, i) == RefAnswerAt(q, es, i)
    {
      match es[i]
      case Gc(_) =>
      case Request(ip, at) =>
        assert NoLater(es[..i], at);
        EntryMatchesHistory(q, ttl, es[..i], ip, at);
        BucketHistory(q, ip, es[..i]);
        CapAtLeastToken(q);
        CreditBounds(q, Full(q, at), at);
    }
  }

  // ---- how many requests a window can admit -------------------------------------------

  // Requests of `ip` admitted among the events i .. j - 1, given the answers.
  function Admitted(ip: Ip, es: seq<Event>, ans: seq<Answer>, i: nat, j: nat): nat
    requires i <= j <= |es| == |ans|
  {
    if i == j then 0
    else
      (if es[j - 1].Request? && es[j - 1].ip == ip && ans[j - 1] == Answered(Admit) then 1 else 0)
      + Admitted(ip, es, ans, i, j - 1)
  }

  // One request: the token it may take is paid out of the credit, the wait after it earns.
  lemma RequestPays(q: Rate, b: Bucket, admitted: nat, start: int, t0: int, at: int, t: int)
    requires q.Valid() && Sane(q, b) && t0 <= at <= t
    requires 60 * q.unit * admitted + Credit(q, b, at) <= start + q.perMin * (at - t0)
    ensures var (b', v) := Ask(q, b, at);
            60 * q.unit * (admitted + if v.Admit? then 1 else 0) + Credit(q, b', t) <= start + q.perMin * (t - t0)
  {
    AskSpends(q, b, at);
    var (b', v) := Ask(q, b, at);
    var earned := q.perMin * (t - at);
    assert Credit(q, b', t) <= b'.credit + earned;
    assert q.perMin * (t - t0) == q.perMin * (at - t0) + earned by { EarnedAdds(q.perMin, at - t0, t - at); }
    assert 60 * q.unit * (admitted + 1) == 60 * q.unit * admitted + q.Token() by { EarnedAdds(q.Token(), admitted, 1); }
  }

  lemma WindowStep(q: Rate, ip: Ip, es: seq<Event>, i: nat, j: nat)
    requires i < j <= |es|
    ensures var b := BucketOf(q, ip, es[..j - 1]);
            var m := Admitted(ip, es, RefAnswers(q, es), i, j - 1);
            var e := es[j - 1];
            if e.Request? && e.ip == ip then
              && BucketOf(q, ip, es[..j]) == Ask(q, b, e.at).0
              && Admitted(ip, es, RefAnswers(q, es), i, j) == m + if Ask(q, b, e.at).1.Admit? then 1 else 0
            else
              && BucketOf(q, ip, es[..j]) == b
              && Admitted(ip, es, RefAnswers(q, es), i, j) == m
  {
    assert es[..j][..j - 1] == es[..j - 1];
    assert RefAnswers(q, es)[j - 1] == RefAnswerAt(q, es, j - 1);
  }

  // Credit is conserved: what a window admits was in the bucket at its start or earned since.
  lemma {:induction false} CreditPaysForAdmissions(q: Rate, ip: Ip, es: seq<Event>, i: nat, j: nat, t0: int, t: int)
    requires q.Valid() && WellTimed(es) && i <= j <= |es|
    requires DoneBy(es[..i], ip, t0) && t0 <= t
    requires forall k :: i <= k < j && IsFrom(es[k], ip) ==> t0 <= es[k].at <= t
    ensures 60 * q.unit * Admitted(ip, es, RefAnswers(q, es), i, j) + Credit(q, BucketOf(q, ip, es[..j]), t)
         <= Credit(q, BucketOf(q, ip, es[..i]), t0) + q.perMin * (t - t0)
  {
    hide Credit, BucketOf, RefAnswers, Ask;
    if i == j {
      BucketHistory(q, ip, es[..i]);
      CreditLater(q, ip, es[..i], t0, t);
    } else {
      var e := es[j - 1];
      WindowStep(q, ip, es, i, j);
      if e.Request? && e.ip == ip {
        assert forall k :: i <= k < j - 1 ==> es[k].at <= e.at;
        CreditPaysForAdmissions(q, ip, es, i, j - 1, t0, e.at);
        BucketHistory(q, ip, es[..j - 1]);
        RequestPays(q, BucketOf(q, ip, es[..j - 1]), Admitted(ip, es, RefAnswers(q, es), i, j - 1),
                    Credit(q, BucketOf(q, ip, es[..i]), t0), t0, e.at, t);
      } else {
        CreditPaysForAdmissions(q, ip, es, i, j - 1, t0, t);
      }
    }
  }

  // The events i .. j - 1 hold the requests of `ip` dated t0 .. t0 + d.  Sweeps in between and
  // other IPs may carry any date a run allows.
  ghost predicate IsWindow(ip: Ip, es: seq<Event>, i: nat, j: nat, t0: int, d: nat) {
    && i <= j <= |es|
    && (forall k :: i <= k < j && IsFrom(es[k], ip) ==> t0 <= es[k].at <= t0 + d)
    && DoneBy(es[..i], ip, t0)
  }

  // In every window of d ticks of every run, at most R + R * d / 60 s requests of an IP are admitted.
  lemma AdmissionBound(q: Rate, ttl: int, ip: Ip, es: seq<Event>, i: nat, j: nat, t0: int, d: nat)
    requires q.Valid() && ttl >= 60 * q.unit - 1 && WellTimed(es) && IsWindow(ip, es, i, j, t0, d)
    ensures 60 * q.unit * Admitted(ip, es, Answers(q, ttl, es), i, j) <= 60 * q.unit * q.perMin + q.perMin * d
  {
    hide Credit, BucketOf, Answers, RefAnswers, Admitted;
    SameAnswers(q, ttl, es);
    CreditPaysForAdmissions(q, ip, es, i, j, t0, t0 + d);
    BucketHistory(q, ip, es[..i]);
    BucketHistory(q, ip, es[..j]);
    CreditBounds(q, BucketOf(q, ip, es[..i]), t0);
    CreditBounds(q, BucketOf(q, ip, es[..j]), t0 + d);
  }

  // ---- ... exactly when the time to live is at least a minute -------------------------

  // k requests of one IP at one instant.
  function Burst(ip: Ip, at: int, k: nat): seq<Event> {
    seq(k, _ => Request(ip, at))
  }

  lemma FullMinus(q: Rate, at: int, k: nat)
    requires q.Valid() && 0 < k <= q.perMin
    ensures Ask(q, Bucket(q.Cap() - (k - 1) * q.Token(), at), at)
         == (Bucket(q.Cap() - k * q.Token(), at), Admit)
  {
    hide Ask;
    EarnedGrows(q.Token(), k, q.perMin);
    EarnedGrows(q.Token(), 0, k - 1);
    EarnedAdds(q.Token(), k - 1, 1);
    var b := Bucket(q.Cap() - (k - 1) * q.Token(), at);
    assert Credit(q, b, at) == b.credit;
    hide Credit;
    AskSpends(q, b, at);
  }

  lemma {:induction false} BurstDrains(q: Rate, ip: Ip, k: nat)
    requires q.Valid() && k <= q.perMin
    ensures BucketOf(q, ip, Burst(ip, 0, k)) == Bucket(q.Cap() - k * q.Token(), 0)
  {
    hide Ask;
    if k > 0 {
      assert Burst(ip, 0, k)[..k - 1] == Burst(ip, 0, k - 1);
      BurstDrains(q, ip, k - 1);
      FullMinus(q, 0, k);
    }
  }

  // After the table was emptied, a burst meets a full bucket and is admitted whole.
  lemma {:induction false} BurstOnEmpty(q: Rate, ttl: int, pre: seq<Event>, ip: Ip, at: int, k: nat)
    requires q.Valid() && k <= q.perMin && After(q, ttl, pre) == EMPTY_TABLE
    ensures Lookup(q, After(q, ttl, pre + Burst(ip, at, k)), ip, at) == Bucket(q.Cap() - k * q.Token(), at)
  {
    hide Ask;
    if k == 0 {
      assert pre + Burst(ip, at, 0) == pre;
    } else {
      var es := pre + Burst(ip, at, k);
      assert es[..|es| - 1] == pre + Burst(ip, at, k - 1);
      assert es[|es| - 1] == Request(ip, at);
      BurstOnEmpty(q, ttl, pre, ip, at, k - 1);
      FullMinus(q, at, k);
    }
  }

  // The run that tells the two limiters apart: drain, sweep one tick before the minute is up,
  // drain again.
  function EarlySweep(q: Rate, ip: Ip): (es: seq<Event>)
    requires q.Valid()
    ensures |es| == 2 * q.perMin + 1
  {
    var t := 60 * q.unit - 1;
    Burst(ip, 0, q.perMin) + [Gc(t)] + Burst(ip, t, q.perMin)
  }

  lemma {:induction false} BurstTable(q: Rate, ttl: int, ip: Ip, at: int, k: nat)
    ensures var s := After(q, ttl, Burst(ip, at, k));
            && s.buckets.Keys == s.seen.Keys == (if k == 0 then {} else {ip})
            && (k > 0 ==> s.seen[ip] == at)
  {
    if k > 0 {
      assert Burst(ip, at, k)[..k - 1] == Burst(ip, at, k - 1);
      BurstTable(q, ttl, ip, at, k - 1);
    }
  }

  lemma EarlySweepForgets(q: Rate, ttl: int, ip: Ip)
    requires q.Valid() && ttl < 60 * q.unit - 1
    ensures After(q, ttl, Burst(ip, 0, q.perMin) + [Gc(60 * q.unit - 1)]) == EMPTY_TABLE
  {
    var es := Burst(ip, 0, q.perMin) + [Gc(60 * q.unit - 1)];
    assert es[..q.perMin] == Burst(ip, 0, q.perMin);
    BurstTable(q, ttl, ip, 0, q.perMin);
    var s := After(q, ttl, es[..q.perMin]);
    assert Idle(s, 60 * q.unit - 1, ttl) == {ip};
  }

  // The evicting limiter admits the whole second burst.
  lemma EarlySweepAdmits(q: Rate, ttl: int, ip: Ip, k: nat)
    requires q.Valid() && ttl < 60 * q.unit - 1 && k < q.perMin
    ensures AnswerAt(q, ttl, EarlySweep(q, ip), q.perMin + 1 + k) == Answered(Admit)
  {
    hide Ask, Lookup, After;
    var t := 60 * q.unit - 1;
    var pre := Burst(ip, 0, q.perMin) + [Gc(t)];
    var i := q.perMin + 1 + k;
    EarlySweepForgets(q, ttl, ip);
    BurstOnEmpty(q, ttl, pre, ip, t, k);
    assert EarlySweep(q, ip)[..i] == pre + Burst(ip, t, k);
    FullMinus(q, t, k + 1);
  }

  lemma {:induction false} AllAdmitted(ip: Ip, es: seq<Event>, ans: seq<Answer>, i: nat, j: nat)
    requires i <= j <= |es| == |ans|
    requires forall k :: i <= k < j ==> es[k].Request? && es[k].ip == ip && ans[k] == Answered(Admit)
    ensures Admitted(ip, es, ans, i, j) == j - i
  {
    if i < j {
      AllAdmitted(ip, es, ans, i, j - 1);
    }
  }

  lemma EarlySweepDrained(q: Rate, ip: Ip)
    requires q.Valid()
    ensures BucketOf(q, ip, EarlySweep(q, ip)[..q.perMin + 1]) == Bucket(q.Cap() - q.perMin * q.Token(), 0)
  {
    var es, r := EarlySweep(q, ip), q.perMin;
    assert es[..r + 1][..r] == Burst(ip, 0, r);
    assert es[..r + 1][r] == Gc(60 * q.unit - 1);
    BurstDrains(q, ip, r);
  }

  // The limiter that never evicts cannot: one tick's credit is missing.
  lemma LastTickIsMissing(q: Rate, ip: Ip)
    requires q.Valid()
    ensures var es := EarlySweep(q, ip);
            && WellTimed(es)
            && Admitted(ip, es, RefAnswers(q, es), q.perMin + 1, 2 * q.perMin + 1) < q.perMin
  {
    hide Credit, BucketOf, RefAnswers, Admitted;
    var es, t, r := EarlySweep(q, ip), 60 * q.unit - 1, q.perMin;
    var i, j := r + 1, 2 * r + 1;
    EarlySweepDrained(q, ip);
    CreditPaysForAdmissions(q, ip, es, i, j, t, t);
    BucketHistory(q, ip, es[..j]);
    var b, b' := BucketOf(q, ip, es[..i]), BucketOf(q, ip, es[..j]);
    TooLittle(q, b, b', Admitted(ip, es, RefAnswers(q, es), i, j));
  }

  lemma TooLittle(q: Rate, b: Bucket, b': Bucket, m: nat)
    requires q.Valid() && b == Bucket(q.Cap() - q.perMin * q.Token(), 0) && Sane(q, b')
    requires var t := 60 * q.unit - 1;
             60 * q.unit * m + Credit(q, b', t) <= Credit(q, b, t) + q.perMin * (t - t)
    ensures m < q.perMin
  {
    CreditBounds(q, b', 60 * q.unit - 1);
    EarnedAdds(q.perMin, 60 * q.unit - 1, 1);
    if m >= q.perMin {
      EarnedGrows(q.Token(), q.perMin, m);
    }
  }

  lemma EarlySweepIsObserved(q: Rate, ttl: int, ip: Ip)
    requires q.Valid() && ttl < 60 * q.unit - 1
    ensures WellTimed(EarlySweep(q, ip))
    ensures Answers(q, ttl, EarlySweep(q, ip)) != RefAnswers(q, EarlySweep(q, ip))
  {
    hide AnswerAt, RefAnswerAt, Admitted;
    var es, r := EarlySweep(q, ip), q.perMin;
    LastTickIsMissing(q, ip);
    forall k | r + 1 <= k < 2 * r + 1
      ensures Answers(q, ttl, es)[k] == Answered(Admit)
    {
      EarlySweepAdmits(q, ttl, ip, k - r - 1);
    }
    var ans, ref := Answers(q, ttl, es), RefAnswers(q, es);
    AllAdmitted(ip, es, ans, r + 1, 2 * r + 1);
    assert Admitted(ip, es, ans, r + 1, 2 * r + 1) != Admitted(ip, es, ref, r + 1, 2 * r + 1);
  }

  /* A sweep can be observed by no run exactly when an entry outlives the minute its bucket
     needs to refill; the limiter ships with fifteen. */
  lemma EvictionUnobservableIff(q: Rate, ttl: int)
    requires q.Valid()
    ensures EvictionUnobservable(q, ttl) <==> ttl >= 60 * q.unit - 1
  {
    if ttl >= 60 * q.unit - 1 {
      forall es | WellTimed(es)
        ensures Answers(q, ttl, es) == RefAnswers(q, es)
      {
        SameAnswers(q, ttl, es);
      }
    } else {
      EarlySweepIsObserved(q, ttl, "ip");
    }
  }

  // ---- ... and so is the admission bound ----------------------------------------------

  // The first burst meets a full bucket as well.
  lemma FirstBurstAdmits(q: Rate, ttl: int, ip: Ip, k: nat)
    requires q.Valid() && k < q.perMin
    ensures AnswerAt(q, ttl, EarlySweep(q, ip), k) == Answered(Admit)
  {
    hide Ask, Lookup, After;
    assert After(q, ttl, []) == EMPTY_TABLE by { EmptyRun(q, ttl); }
    BurstOnEmpty(q, ttl, [], ip, 0, k);
    assert EarlySweep(q, ip)[..k] == [] + Burst(ip, 0, k);
    FullMinus(q, 0, k + 1);
  }

  lemma EmptyRun(q: Rate, ttl: int)
    ensures After(q, ttl, []) == EMPTY_TABLE
  {
  }

  lemma {:induction false} AdmittedSplits(ip: Ip, es: seq<Event>, ans: seq<Answer>, i: nat, m: nat, j: nat)
    requires i <= m <= j <= |es| == |ans|
    ensures Admitted(ip, es, ans, i, j) == Admitted(ip, es, ans, i, m) + Admitted(ip, es, ans, m, j)
  {
    if m < j {
      AdmittedSplits(ip, es, ans, i, m, j - 1);
    }
  }

  // With a shorter time to live a client drains its bucket twice within one minute.
  lemma EarlySweepDoubles(q: Rate, ttl: int, ip: Ip)
    requires q.Valid() && ttl < 60 * q.unit - 1
    ensures var es := EarlySweep(q, ip);
            && WellTimed(es) && IsWindow(ip, es, 0, |es|, 0, 60 * q.unit - 1)
            && Admitted(ip, es, Answers(q, ttl, es), 0, |es|) == 2 * q.perMin
  {
    hide AnswerAt, Admitted;
    var es, r := EarlySweep(q, ip), q.perMin;
    var ans := Answers(q, ttl, es);
    forall k | 0 <= k < r
      ensures ans[k] == Answered(Admit)
    {
      FirstBurstAdmits(q, ttl, ip, k);
    }
    forall k | r + 1 <= k < 2 * r + 1
      ensures ans[k] == Answered(Admit)
    {
      EarlySweepAdmits(q, ttl, ip, k - r - 1);
    }
    AllAdmitted(ip, es, ans, 0, r);
    AllAdmitted(ip, es, ans, r + 1, 2 * r + 1);
    AdmittedSplits(ip, es, ans, 0, r, 2 * r + 1);
    AdmittedSplits(ip, es, ans, r, r + 1, 2 * r + 1);
    SweepAdmitsNone(ip, es, ans, r);
  }

  lemma SweepAdmitsNone(ip: Ip, es: seq<Event>, ans: seq<Answer>, i: nat)
    requires i < |es| == |ans| && es[i].Gc?
    ensures Admitted(ip, es, ans, i, i + 1) == 0
  {
  }

  ghost predicate AdmissionBounded(q: Rate, ttl: int) {
    forall ip, es, i: nat, j: nat, t0, d: nat | WellTimed(es) && IsWindow(ip, es, i, j, t0, d) ::
      60 * q.unit * Admitted(ip, es, Answers(q, ttl, es), i, j) <= 60 * q.unit * q.perMin + q.perMin * d
  }

  // The bound holds in every window of every run exactly when an entry outlives the minute.
  lemma AdmissionBoundIff(q: Rate, ttl: int)
    requires q.Valid()
    ensures AdmissionBounded(q, ttl) <==> ttl >= 60 * q.unit - 1
  {
    if ttl >= 60 * q.unit - 1 {
      forall ip, es, i: nat, j: nat, t0, d: nat | WellTimed(es) && IsWindow(ip, es, i, j, t0, d)
        ensures 60 * q.unit * Admitted(ip, es, Answers(q, ttl, es), i, j) <= 60 * q.unit * q.perMin + q.perMin * d
      {
        AdmissionBound(q, ttl, ip, es, i, j, t0, d);
      }
    } else {
      var es := EarlySweep(q, "ip");
      EarlySweepDoubles(q, ttl, "ip");
      TwiceIsTooMuch(q);
      hide EarlySweep, Answers, Admitted, IsWindow, WellTimed;
      assert IsWindow("ip", es, 0, |es|, 0, 60 * q.unit - 1);
    }
  }

  lemma TwiceIsTooMuch(q: Rate)
    requires q.Valid()
    ensures 60 * q.unit * (2 * q.perMin) > 60 * q.unit * q.perMin + q.perMin * (60 * q.unit - 1)
  {
    EarnedAdds(q.Token(), q.perMin, q.perMin);
    EarnedAdds(q.perMin, 60 * q.unit - 1, 1);
  }
}
