/**
 What a client of the limiter can count on, over every run with evictions: spaced requests
 are never denied, denied requests cost nothing, and Retry-After says exactly when to come back.
 */
module RateLimiterPromises {
  import opened Wrappers
  import opened TokenBucket
  import opened RateLimiterRuns

  // ---- spaced requests ----------------------------------------------------------------

  // Successive requests of `ip` are at least 60 / R seconds apart.
  ghost predicate Spaced(q: Rate, ip: Ip, es: seq<Event>) {
    forall i, j :: 0 <= i < j < |es| && es[i].Request? && es[j].Request? && es[i].ip == es[j].ip == ip
                   ==> q.perMin * (es[j].at - es[i].at) >= 60 * q.unit
  }

  // A kept entry is sane and remembers when its bucket was last moved.
  predicate EntrySound(q: Rate, s: Table, ip: Ip) {
    && (ip in s.buckets <==> ip in s.seen)
    && (ip in s.buckets ==> Sane(q, s.buckets[ip]) && s.seen[ip] == s.buckets[ip].last)
  }

  // Whatever the time to live: an entry is sound and was last moved by a request of its IP.
  lemma {:induction false} EntryHistory(q: Rate, ttl: int, es: seq<Event>, ip: Ip)
    requires q.Valid()
    ensures var s := After(q, ttl, es);
            && EntrySound(q, s, ip)
            && (ip in s.buckets ==> exists k :: 0 <= k < |es| && es[k] == Request(ip, s.buckets[ip].last))
  {
    if es != [] {
      var n := |es| - 1;
      EntryHistory(q, ttl, es[..n], ip);
      var s := After(q, ttl, es[..n]);
      if IsFrom(es[n], ip) {
        CapAtLeastToken(q);
        AskSpends(q, Lookup(q, s, ip, es[n].at), es[n].at);
        assert es[n] == Request(ip, After(q, ttl, es).buckets[ip].last);
      } else if ip in s.buckets {
        var k :| 0 <= k < n && es[..n][k] == Request(ip, s.buckets[ip].last);
        assert es[k] == Request(ip, s.buckets[ip].last);
      }
    }
  }

  // An entry is never dated after a request that the clock allows next.
  lemma EntryIsPast(q: Rate, ttl: int, es: seq<Event>, ip: Ip, at: int)
    requires q.Valid() && NoLater(es, at)
    ensures var s := After(q, ttl, es);
            EntrySound(q, s, ip) && (ip in s.buckets ==> s.buckets[ip].last <= at)
  {
    hide After;
    EntryHistory(q, ttl, es, ip);
  }

  lemma SpacedEarnsToken(q: Rate, ttl: int, ip: Ip, es: seq<Event>, i: nat)
    requires q.Valid() && WellTimed(es) && Spaced(q, ip, es)
    requires i < |es| && IsFrom(es[i], ip)
    ensures Credit(q, Lookup(q, After(q, ttl, es[..i]), ip, es[i].at), es[i].at) >= 60 * q.unit
  {
    hide After, Ask;
    var s, at := After(q, ttl, es[..i]), es[i].at;
    var b := Lookup(q, s, ip, at);
    EntryHistory(q, ttl, es[..i], ip);
    CapAtLeastToken(q);
    CreditBounds(q, b, at);
    if ip in s.buckets {
      var k :| 0 <= k < i && es[..i][k] == Request(ip, b.last);
      assert es[k] == Request(ip, b.last);
      assert q.perMin * (at - b.last) >= 60 * q.unit;
    }
  }

  // Early evictions only help: this holds for every time to live.
  lemma SpacedNeverDenied(q: Rate, ttl: int, ip: Ip, es: seq<Event>, i: nat)
    requires q.Valid() && WellTimed(es) && Spaced(q, ip, es)
    requires i < |es| && IsFrom(es[i], ip)
    ensures Answers(q, ttl, es)[i] == Answered(Admit)
  {
    var at := es[i].at;
    SpacedEarnsToken(q, ttl, ip, es, i);
    EntryHistory(q, ttl, es[..i], ip);
    var b := Lookup(q, After(q, ttl, es[..i]), ip, at);
    CapAtLeastToken(q);
    AskSpends(q, b, at);
    hide Ask, Credit, After, Spaced, WellTimed;
  }

  // ---- denied requests ----------------------------------------------------------------

  predicate IsDenial(a: Answer) {
    a.Answered? && a.verdict.Deny?
  }

  // The run without its denied requests, and what is left of its answers.
  function Kept(es: seq<Event>, ans: seq<Answer>): (r: seq<Event>)
    requires |es| == |ans|
  {
    if es == [] then []
    else
      var n := |es| - 1;
      Kept(es[..n], ans[..n]) + if IsDenial(ans[n]) then [] else [es[n]]
  }

  function KeptAnswers(ans: seq<Answer>): seq<Answer> {
    if ans == [] then []
    else
      var n := |ans| - 1;
      KeptAnswers(ans[..n]) + if IsDenial(ans[n]) then [] else [ans[n]]
  }

  lemma KeptAppend(es: seq<Event>, ans: seq<Answer>, e: Event, a: Answer)
    requires |es| == |ans|
    ensures var denied := IsDenial(a);
            && Kept(es + [e], ans + [a]) == Kept(es, ans) + (if denied then [] else [e])
            && KeptAnswers(ans + [a]) == KeptAnswers(ans) + if denied then [] else [a]
  {
    assert (es + [e])[..|es|] == es && (ans + [a])[..|es|] == ans;
  }

  lemma {:induction false} KeptStaysTimed(es: seq<Event>, ans: seq<Answer>)
    requires |es| == |ans| && WellTimed(es)
    ensures WellTimed(Kept(es, ans))
    ensures forall t :: NoLater(es, t) ==> NoLater(Kept(es, ans), t)
  {
    if es != [] {
      var n := |es| - 1;
      SplitLast(es);
      KeptStaysTimed(es[..n], ans[..n]);
      var f := Kept(es[..n], ans[..n]);
      if es[n].Request? {
        assert NoLater(f, es[n].at);
      }
      forall t | NoLater(es, t)
        ensures NoLater(Kept(es, ans), t)
      {
        assert NoLater(es[..n], t) && es[n].at <= t;
      }
    }
  }

  lemma RefAnswersPrefix(q: Rate, es: seq<Event>, n: nat)
    requires n <= |es|
    ensures RefAnswers(q, es)[..n] == RefAnswers(q, es[..n])
  {
    assert forall i :: 0 <= i < n ==> es[..n][..i] == es[..i];
  }

  // The answer to one more event.
  function RefNext(q: Rate, es: seq<Event>, e: Event): Answer {
    if e.Request? then Answered(Ask(q, BucketOf(q, e.ip, es), e.at).1) else Swept
  }

  lemma RefAnswersAppend(q: Rate, es: seq<Event>, e: Event)
    ensures RefAnswers(q, es + [e]) == RefAnswers(q, es) + [RefNext(q, es, e)]
  {
    assert (es + [e])[..|es|] == es;
    RefAnswersPrefix(q, es + [e], |es|);
  }

  lemma BucketAppend(q: Rate, ip: Ip, es: seq<Event>, e: Event)
    ensures BucketOf(q, ip, es + [e])
         == if IsFrom(e, ip) then Ask(q, BucketOf(q, ip, es), e.at).0 else BucketOf(q, ip, es)
  {
    assert (es + [e])[..|es|] == es;
  }

  // Equal credit at the time of a request makes equal buckets after it.
  lemma AskDependsOnCredit(q: Rate, b: Bucket, b': Bucket, at: int)
    requires q.Valid() && Sane(q, b) && Sane(q, b') && Credit(q, b, at) == Credit(q, b', at)
    ensures Ask(q, b, at) == Ask(q, b', at)
  {
    hide Ask, Credit;
    AskSpends(q, b, at);
    AskSpends(q, b', at);
  }

  // The two runs give the bucket of `ip` the same credit at time t.
  ghost predicate NoTrace(q: Rate, ip: Ip, es: seq<Event>, t: int) {
    Credit(q, BucketOf(q, ip, Kept(es, RefAnswers(q, es))), t) == Credit(q, BucketOf(q, ip, es), t)
  }

  lemma OneMoreNoTrace(q: Rate, ip: Ip, es: seq<Event>, e: Event, t: int)
    requires q.Valid() && WellTimed(es) && (IsFrom(e, ip) ==> NoLater(es, e.at) && e.at <= t)
    ensures NoTrace(q, ip, es, if IsFrom(e, ip) then e.at else t) ==> NoTrace(q, ip, es + [e], t)
  {
    var f, b := Kept(es, RefAnswers(q, es)), BucketOf(q, ip, es);
    var b' := BucketOf(q, ip, f);
    BucketHistory(q, ip, es);
    BucketHistory(q, ip, f);
    KeptStaysTimed(es, RefAnswers(q, es));
    RefAnswersAppend(q, es, e);
    KeptAppend(es, RefAnswers(q, es), e, RefNext(q, es, e));
    BucketAppend(q, ip, es, e);
    BucketAppend(q, ip, f, e);
    assert f + [] == f;
    if IsFrom(e, ip) && NoTrace(q, ip, es, e.at) {
      AskDependsOnCredit(q, b, b', e.at);
      AskSpends(q, b, e.at);
      NoLaterIsDoneBy(f, ip, e.at);
      CreditVia(q, ip, f, e.at, t);
      hide Ask, Credit, BucketOf, Kept, RefAnswers;
    }
  }

  lemma NoLaterIsDoneBy(es: seq<Event>, ip: Ip, t: int)
    requires NoLater(es, t)
    ensures DoneBy(es, ip, t)
  {
  }

  // The bucket without the denied requests holds the same credit at every later time.
  lemma {:induction false} DenialsLeaveNoTrace(q: Rate, ip: Ip, es: seq<Event>, t: int)
    requires q.Valid() && WellTimed(es) && NoLater(es, t)
    ensures Credit(q, BucketOf(q, ip, Kept(es, RefAnswers(q, es))), t) == Credit(q, BucketOf(q, ip, es), t)
  {
    if es != [] {
      var n := |es| - 1;
      SplitLast(es);
      DenialsLeaveNoTrace(q, ip, es[..n], if IsFrom(es[n], ip) then es[n].at else t);
      OneMoreNoTrace(q, ip, es[..n], es[n], t);
      assert es[..n] + [es[n]] == es;
    }
  }

  // b' was moved no later than b, and held as much when b was moved.
  predicate Ahead(q: Rate, b': Bucket, b: Bucket) {
    b'.last <= b.last && b.credit <= Credit(q, b', b.last)
  }

  lemma AheadLater(q: Rate, b': Bucket, b: Bucket, t: int)
    requires q.Valid() && Sane(q, b') && Sane(q, b) && Ahead(q, b', b) && b.last <= t
    ensures Credit(q, b, t) <= Credit(q, b', t)
  {
    CreditComposes(q, b', b.last, t);
    EarnedGrows(q.perMin, 0, t - b.last);
  }

  /* The simulation behind DenialsCostNothing: s' comes from the run without its denied requests.
     Every entry of s' has one in s that it is ahead of; s may keep entries that s' has evicted,
     because a denied request keeps them from being idle. */
  predicate Trails(q: Rate, s': Table, s: Table, ip: Ip) {
    && EntrySound(q, s', ip) && EntrySound(q, s, ip)
    && (ip in s'.buckets ==> ip in s.buckets && Ahead(q, s'.buckets[ip], s.buckets[ip]))
  }

  lemma LookupAhead(q: Rate, s': Table, s: Table, ip: Ip, at: int)
    requires q.Valid() && Trails(q, s', s, ip) && (ip in s.buckets ==> s.buckets[ip].last <= at)
    ensures var b', b := Lookup(q, s', ip, at), Lookup(q, s, ip, at);
            && Sane(q, b') && Sane(q, b)
            && b'.last <= at && b.last <= at
            && Credit(q, b, at) <= Credit(q, b', at)
  {
    CapAtLeastToken(q);
    if ip in s'.buckets {
      AheadLater(q, s'.buckets[ip], s.buckets[ip], at);
    } else {
      CreditBounds(q, Lookup(q, s, ip, at), at);
      CreditBounds(q, Full(q, at), at);
    }
  }

  // An admitted request is admitted in both runs, and keeps the distance.
  lemma AdmitTrails(q: Rate, s': Table, s: Table, ip: Ip, at: int)
    requires q.Valid() && Trails(q, s', s, ip) && (ip in s.buckets ==> s.buckets[ip].last <= at)
    requires AllowStep(q, s, ip, at).1.Admit?
    ensures AllowStep(q, s', ip, at).1.Admit?
    ensures Trails(q, AllowStep(q, s', ip, at).0, AllowStep(q, s, ip, at).0, ip)
  {
    var b', b := Lookup(q, s', ip, at), Lookup(q, s, ip, at);
    LookupAhead(q, s', s, ip, at);
    hide Ask, Lookup;
    AskSpends(q, b, at);
    AskSpends(q, b', at);
    CreditBounds(q, Ask(q, b', at).0, at);
  }

  // A denied request moves the bucket of the full run only, to where the clock put it.
  lemma DenyTrails(q: Rate, s': Table, s: Table, ip: Ip, at: int)
    requires q.Valid() && Trails(q, s', s, ip) && (ip in s.buckets ==> s.buckets[ip].last <= at)
    requires AllowStep(q, s, ip, at).1.Deny?
    ensures Trails(q, s', AllowStep(q, s, ip, at).0, ip)
  {
    LookupAhead(q, s', s, ip, at);
    AskSpends(q, Lookup(q, s, ip, at), at);
    hide Ask, Credit;
  }

  // An earlier entry is evicted at least as early.
  lemma SweepTrails(q: Rate, s': Table, s: Table, ip: Ip, at: int, ttl: int)
    requires Trails(q, s', s, ip)
    ensures Trails(q, GcStep(s', at, ttl), GcStep(s, at, ttl), ip)
  {
    hide Credit;
  }

  lemma OneMoreTrails(q: Rate, ttl: int, s': Table, s: Table, ip: Ip, e: Event)
    requires q.Valid() && Trails(q, s', s, ip)
    requires IsFrom(e, ip) && ip in s.buckets ==> s.buckets[ip].last <= e.at
    ensures Trails(q, if IsDenial(Next(q, s, e)) then s' else Step(q, ttl, s', e), Step(q, ttl, s, e), ip)
  {
    match e {
      case Gc(at) =>
        SweepTrails(q, s', s, ip, at, ttl);
      case Request(ip', at) =>
        if ip' == ip {
          if IsDenial(Next(q, s, e)) {
            DenyTrails(q, s', s, ip, at);
          } else {
            AdmitTrails(q, s', s, ip, at);
          }
        }
    }
    hide Ask, Credit, Lookup;
  }

  lemma {:induction false} KeptTrails(q: Rate, ttl: int, es: seq<Event>, ip: Ip)
    requires q.Valid() && WellTimed(es)
    ensures Trails(q, After(q, ttl, Kept(es, Answers(q, ttl, es))), After(q, ttl, es), ip)
  {
    hide Trails, Step, Next, Answers, Kept;
    if es == [] {
      NothingTrails(q, ttl, ip);
    } else {
      var n := |es| - 1;
      var es', e := es[..n], es[n];
      var ans := Answers(q, ttl, es');
      SplitLast(es);
      assert es == es' + [e];
      KeptTrails(q, ttl, es', ip);
      if IsFrom(e, ip) {
        EntryIsPast(q, ttl, es', ip, e.at);
      }
      RunAppend(q, ttl, es', e);
      KeptAppend(es', ans, e, Next(q, After(q, ttl, es'), e));
      RunAppend(q, ttl, Kept(es', ans), e);
      OneMoreTrails(q, ttl, After(q, ttl, Kept(es', ans)), After(q, ttl, es'), ip, e);
      assert Kept(es', ans) + [] == Kept(es', ans);
    }
  }

  lemma NothingTrails(q: Rate, ttl: int, ip: Ip)
    ensures Trails(q, After(q, ttl, Kept([], Answers(q, ttl, []))), After(q, ttl, []), ip)
  {
  }

  // A kept event gets the answer it had.
  lemma SameNext(q: Rate, ttl: int, es: seq<Event>, e: Event)
    requires q.Valid() && WellTimed(es) && (e.Request? ==> NoLater(es, e.at))
    requires !IsDenial(Next(q, After(q, ttl, es), e))
    ensures Next(q, After(q, ttl, Kept(es, Answers(q, ttl, es))), e) == Next(q, After(q, ttl, es), e)
  {
    if e.Request? {
      hide After, Kept, Answers, Ask;
      KeptTrails(q, ttl, es, e.ip);
      EntryIsPast(q, ttl, es, e.ip, e.at);
      AdmitTrails(q, After(q, ttl, Kept(es, Answers(q, ttl, es))), After(q, ttl, es), e.ip, e.at);
    }
  }

  // Deleting every denied request from a run leaves every remaining answer as it was, for every
  // time to live, even though the deleted requests no longer keep entries from being evicted.
  lemma {:induction false} DenialsCostNothing(q: Rate, ttl: int, es: seq<Event>)
    requires q.Valid() && WellTimed(es)
    ensures var ans := Answers(q, ttl, es);
            Answers(q, ttl, Kept(es, ans)) == KeptAnswers(ans)
  {
    hide After, Answers, Kept, KeptAnswers, Next, Step, WellTimed, NoLater;
    if es == [] {
      NothingKept(q, ttl);
    } else {
      var n := |es| - 1;
      var es', e := es[..n], es[n];
      var ans, a := Answers(q, ttl, es'), Next(q, After(q, ttl, es'), e);
      SplitLast(es);
      assert es == es' + [e];
      DenialsCostNothing(q, ttl, es');
      RunAppend(q, ttl, es', e);
      KeptAppend(es', ans, e, a);
      if !IsDenial(a) {
        SameNext(q, ttl, es', e);
        RunAppend(q, ttl, Kept(es', ans), e);
      }
      assert Kept(es', ans) + [] == Kept(es', ans) && KeptAnswers(ans) + [] == KeptAnswers(ans);
    }
  }

  lemma NothingKept(q: Rate, ttl: int)
    ensures Answers(q, ttl, Kept([], Answers(q, ttl, []))) == KeptAnswers(Answers(q, ttl, []))
  {
  }

  // ---- Retry-After --------------------------------------------------------------------

  // Whole seconds, rounded up, at least one (section 7.1.3 of RFC 7231).
  function RetryAfter(q: Rate, missing: nat): nat
    requires q.Valid()
  {
    var secs := CeilDiv(missing, q.perMin * q.unit);
    if secs < 1 then 1 else secs
  }

  // Two requests of one IP with none of that IP in between.
  ghost predicate IsRetry(es: seq<Event>, i: nat, j: nat) {
    && i < j < |es| && es[i].Request? && es[j].Request? && es[i].ip == es[j].ip
    && forall k :: i < k < j ==> !(es[k].Request? && es[k].ip == es[i].ip)
  }

  // Between requests of its IP an entry stays as it is, or goes in a sweep that finds it idle.
  lemma {:induction false} QuietEntry(q: Rate, ttl: int, es: seq<Event>, ip: Ip, i: nat, j: nat)
    requires q.Valid() && i <= j <= |es|
    requires forall k :: i <= k < j ==> !IsFrom(es[k], ip)
    ensures var s, s' := After(q, ttl, es[..i]), After(q, ttl, es[..j]);
            && (ip in s'.buckets ==> ip in s.buckets && s'.buckets[ip] == s.buckets[ip])
            && (ip in s.buckets && ip !in s'.buckets ==>
                  exists k :: i <= k < j && es[k].Gc? && s.buckets[ip].last < es[k].at - ttl)
  {
    if i < j {
      var e := es[j - 1];
      assert es[..j] == es[..j - 1] + [e];
      QuietEntry(q, ttl, es, ip, i, j - 1);
      EntryHistory(q, ttl, es[..j - 1], ip);
      RunAppend(q, ttl, es[..j - 1], e);
      hide After, Ask;
    }
  }

  // The bucket the second of two requests finds: as the first left it, or full after a sweep.
  lemma BucketAtRetry(q: Rate, ttl: int, es: seq<Event>, i: nat, j: nat)
    requires q.Valid() && WellTimed(es) && IsRetry(es, i, j)
    ensures var ip, at := es[i].ip, es[i].at;
            var b := Lookup(q, After(q, ttl, es[..i]), ip, at);
            var b' := Lookup(q, After(q, ttl, es[..j]), ip, es[j].at);
            && Sane(q, b)
            && Answers(q, ttl, es)[i] == Answered(Ask(q, b, at).1)
            && Answers(q, ttl, es)[j] == Answered(Ask(q, b', es[j].at).1)
            && (b' == Ask(q, b, at).0 || (b' == Full(q, es[j].at) && es[j].at - at > ttl))
  {
    var ip, at := es[i].ip, es[i].at;
    var s := After(q, ttl, es[..i]);
    EntryHistory(q, ttl, es[..i], ip);
    CapAtLeastToken(q);
    AskSpends(q, Lookup(q, s, ip, at), at);
    RunAppend(q, ttl, es[..i], es[i]);
    assert es[..i + 1] == es[..i] + [es[i]];
    QuietEntry(q, ttl, es, ip, i + 1, j);
    hide After, Ask, Answers;
  }

  // After a denial the bucket earns what was missing, and the next request takes stock.
  lemma MissingIsEarned(q: Rate, b: Bucket, t: int, t': int)
    requires q.Valid() && Sane(q, b) && t <= t'
    ensures var (b', v) := Ask(q, b, t);
            var earned := q.perMin * (t' - t);
            v.Deny? ==>
              && 0 < v.missing <= 60 * q.unit
              && Ask(q, b', t').1 == if earned >= v.missing then Admit else Deny(v.missing - earned)
  {
    hide Ask;
    AskSpends(q, b, t);
    CreditBounds(q, b, t);
    var b' := Ask(q, b, t).0;
    AskSpends(q, b', t');
    CapAtLeastToken(q);
    EarnedGrows(q.perMin, 0, t' - t);
  }

  lemma FullAdmits(q: Rate, at: int)
    requires q.Valid()
    ensures Ask(q, Full(q, at), at).1 == Admit
  {
    CapAtLeastToken(q);
    CreditBounds(q, Full(q, at), at);
    AskSpends(q, Full(q, at), at);
  }

  // A denial lacks at most a token; the retry gets in once the bucket has earned it, whatever the
  // time to live, and the answer to an earlier retry is exact unless the entry was evicted.
  lemma RetryAnswer(q: Rate, ttl: int, es: seq<Event>, i: nat, j: nat)
    requires q.Valid() && WellTimed(es) && IsRetry(es, i, j)
    ensures var waited := es[j].at - es[i].at;
            var earned := q.perMin * waited;
            match Answers(q, ttl, es)[i].verdict
            case Admit => true
            case Deny(missing) =>
              && 0 < missing <= 60 * q.unit && waited >= 0
              && (earned >= missing ==> Answers(q, ttl, es)[j] == Answered(Admit))
              && (waited <= ttl && earned < missing ==> Answers(q, ttl, es)[j] == Answered(Deny(missing - earned)))
  {
    BucketAtRetry(q, ttl, es, i, j);
    assert es[i].at <= es[j].at;
    MissingIsEarned(q, Lookup(q, After(q, ttl, es[..i]), es[i].ip, es[i].at), es[i].at, es[j].at);
    FullAdmits(q, es[j].at);
    hide *;
  }

  // A retry is admitted exactly when the missing credit has been earned; otherwise what is
  // still missing has shrunk by what was earned.
  ghost predicate IsExact(q: Rate, ttl: int, es: seq<Event>, i: nat, j: nat)
    requires IsRetry(es, i, j)
  {
    var earned := q.perMin * (es[j].at - es[i].at);
    match Answers(q, ttl, es)[i].verdict
    case Admit => true
    case Deny(missing) =>
      Answers(q, ttl, es)[j] == Answered(if earned >= missing then Admit else Deny(missing - earned))
  }

  // So it is when a token is earned before an entry can be evicted, or within the time to live.
  lemma RetryExact(q: Rate, ttl: int, es: seq<Event>, i: nat, j: nat)
    requires q.Valid() && WellTimed(es) && IsRetry(es, i, j)
    requires q.perMin * (ttl + 1) >= 60 * q.unit || es[j].at - es[i].at <= ttl
    ensures IsExact(q, ttl, es, i, j)
  {
    RetryAnswer(q, ttl, es, i, j);
    var waited := es[j].at - es[i].at;
    if waited > ttl {
      EarnedGrows(q.perMin, ttl + 1, waited);
    }
    hide Answers, IsRetry, WellTimed;
  }

  ghost predicate RetriesExact(q: Rate, ttl: int) {
    forall es, i, j | WellTimed(es) && IsRetry(es, i, j) :: IsExact(q, ttl, es, i, j)
  }

  // Drain the bucket, be denied, and come back after a sweep dated g.
  function SweptRetry(q: Rate, ip: Ip, g: nat): (es: seq<Event>)
    ensures |es| == q.perMin + 3
  {
    Burst(ip, 0, q.perMin + 1) + [Gc(g), Request(ip, g)]
  }

  lemma SweptRetryDenied(q: Rate, ttl: int, ip: Ip, g: nat)
    requires q.Valid()
    ensures Answers(q, ttl, SweptRetry(q, ip, g))[q.perMin] == Answered(Deny(60 * q.unit))
  {
    var es, r := SweptRetry(q, ip, g), q.perMin;
    EmptyRun(q, ttl);
    BurstOnEmpty(q, ttl, [], ip, 0, r);
    assert es[..r] == [] + Burst(ip, 0, r) && es[r] == Request(ip, 0);
    var b := Bucket(0, 0);
    assert Bucket(q.Cap() - r * q.Token(), 0) == b;
    assert Credit(q, b, 0) == 0;
    AskSpends(q, b, 0);
    hide Ask, After, Lookup;
  }

  lemma SweptRetryAdmitted(q: Rate, ttl: int, ip: Ip, g: nat)
    requires q.Valid() && g > ttl
    ensures Answers(q, ttl, SweptRetry(q, ip, g))[q.perMin + 2] == Answered(Admit)
  {
    var es, r := SweptRetry(q, ip, g), q.perMin;
    var pre := Burst(ip, 0, r + 1);
    BurstTable(q, ttl, ip, 0, r + 1);
    RunAppend(q, ttl, pre, Gc(g));
    assert Idle(After(q, ttl, pre), g, ttl) == {ip};
    assert es[..r + 2] == pre + [Gc(g)] && es[r + 2] == Request(ip, g);
    FullAdmits(q, g);
    hide Ask, After, Burst;
  }

  // A denied client that comes back right after a sweep, g ticks later, is admitted early.
  lemma SweptRetryIsEarly(q: Rate, ttl: int, ip: Ip, g: nat)
    requires q.Valid() && g > ttl
    ensures var es, r := SweptRetry(q, ip, g), q.perMin;
            && WellTimed(es) && IsRetry(es, r, r + 2)
            && es[r].at == 0 && es[r + 2].at == g
            && Answers(q, ttl, es)[r] == Answered(Deny(60 * q.unit))
            && Answers(q, ttl, es)[r + 2] == Answered(Admit)
  {
    SweptRetryDenied(q, ttl, ip, g);
    SweptRetryAdmitted(q, ttl, ip, g);
    hide Answers;
  }

  // Every retry gets the exact answer exactly when a token is earned before an entry can go.
  lemma RetriesExactIff(q: Rate, ttl: int)
    requires q.Valid()
    ensures RetriesExact(q, ttl) <==> q.perMin * (ttl + 1) >= 60 * q.unit
  {
    hide WellTimed, IsRetry, SweptRetry;
    if q.perMin * (ttl + 1) >= 60 * q.unit {
      forall es, i, j | WellTimed(es) && IsRetry(es, i, j)
        ensures IsExact(q, ttl, es, i, j)
      {
        RetryExact(q, ttl, es, i, j);
      }
    } else {
      var g := Max(ttl + 1, 0);
      SweptRetryIsEarly(q, ttl, "ip", g);
      assert !IsExact(q, ttl, SweptRetry(q, "ip", g), q.perMin, q.perMin + 2);
    }
  }

  lemma SecondsEarn(q: Rate, secs: nat, ticks: int)
    requires q.Valid()
    ensures ticks >= secs * q.unit ==> q.perMin * ticks >= secs * (q.perMin * q.unit)
    ensures ticks <= secs * q.unit ==> q.perMin * ticks <= secs * (q.perMin * q.unit)
  {
    assert q.perMin * (secs * q.unit) == secs * (q.perMin * q.unit);
    if ticks >= secs * q.unit {
      EarnedGrows(q.perMin, secs * q.unit, ticks);
    }
    if ticks <= secs * q.unit {
      EarnedGrows(q.perMin, ticks, secs * q.unit);
    }
  }

  lemma RetryAfterRange(q: Rate, missing: nat)
    requires q.Valid() && missing <= 60 * q.unit
    ensures 1 <= RetryAfter(q, missing) <= 60
  {
    var s := q.perMin * q.unit;
    EarnedGrows(q.unit, 1, q.perMin);
    assert missing <= 60 * s;
    var r := CeilDiv(missing, s);
    if r > 60 {
      EarnedGrows(s, 60, r - 1);
    }
  }

  // Retry-After is sound, whatever the time to live: it is between 1 and 60 seconds, and a retry
  // that waits for it is admitted.
  lemma RetryAfterIsSound(q: Rate, ttl: int, es: seq<Event>, i: nat, j: nat)
    requires q.Valid() && WellTimed(es) && IsRetry(es, i, j)
    ensures match Answers(q, ttl, es)[i].verdict
            case Admit => true
            case Deny(missing) =>
              var secs, waited := RetryAfter(q, missing), es[j].at - es[i].at;
              1 <= secs <= 60 && (waited >= secs * q.unit ==> Answers(q, ttl, es)[j].verdict.Admit?)
  {
    RetryAnswer(q, ttl, es, i, j);
    hide Answers, WellTimed, IsRetry;
    match Answers(q, ttl, es)[i].verdict
    case Admit =>
    case Deny(missing) =>
      var secs, waited := RetryAfter(q, missing), es[j].at - es[i].at;
      RetryAfterRange(q, missing);
      SecondsEarn(q, secs, waited);
      assert missing <= secs * (q.perMin * q.unit);
  }

  // A retry that comes a full second early is denied.
  ghost predicate IsTight(q: Rate, ttl: int, es: seq<Event>, i: nat, j: nat)
    requires q.Valid() && IsRetry(es, i, j)
  {
    match Answers(q, ttl, es)[i].verdict
    case Admit => true
    case Deny(missing) =>
      var secs, waited := RetryAfter(q, missing), es[j].at - es[i].at;
      secs >= 2 && waited <= (secs - 1) * q.unit ==> Answers(q, ttl, es)[j].verdict.Deny?
  }

  // The longest wait a denial can carry.
  function LongestWait(q: Rate): nat
    requires q.Valid()
  {
    RetryAfter(q, 60 * q.unit)
  }

  lemma WaitGrows(q: Rate, missing: nat)
    requires q.Valid() && missing <= 60 * q.unit
    ensures RetryAfter(q, missing) <= LongestWait(q)
    ensures RetryAfter(q, missing) >= 2 ==> (RetryAfter(q, missing) - 1) * (q.perMin * q.unit) < missing
  {
    var s := q.perMin * q.unit;
    var r, l := CeilDiv(missing, s), CeilDiv(60 * q.unit, s);
    if r > l {
      EarnedGrows(s, l, r - 1);
    }
  }

  lemma ASecondEarly(q: Rate, missing: nat, waited: int, ttl: int)
    requires q.Valid() && missing <= 60 * q.unit && RetryAfter(q, missing) >= 2
    requires waited <= (RetryAfter(q, missing) - 1) * q.unit
    requires LongestWait(q) == 1 || ttl >= (LongestWait(q) - 1) * q.unit
    ensures q.perMin * waited < missing && waited <= ttl
  {
    WaitGrows(q, missing);
    hide RetryAfter, LongestWait;
    SecondsEarn(q, RetryAfter(q, missing) - 1, waited);
    EarnedGrows(q.unit, RetryAfter(q, missing) - 1, LongestWait(q) - 1);
  }

  lemma RetryAfterIsTight(q: Rate, ttl: int, es: seq<Event>, i: nat, j: nat)
    requires q.Valid() && WellTimed(es) && IsRetry(es, i, j)
    requires LongestWait(q) == 1 || ttl >= (LongestWait(q) - 1) * q.unit
    ensures IsTight(q, ttl, es, i, j)
  {
    RetryAnswer(q, ttl, es, i, j);
    hide Answers, WellTimed, IsRetry, RetryAfter;
    match Answers(q, ttl, es)[i].verdict
    case Admit =>
    case Deny(missing) =>
      var secs, waited := RetryAfter(q, missing), es[j].at - es[i].at;
      if secs >= 2 && waited <= (secs - 1) * q.unit {
        ASecondEarly(q, missing, waited, ttl);
      }
  }

  ghost predicate RetryAfterTight(q: Rate, ttl: int)
    requires q.Valid()
  {
    forall es, i, j | WellTimed(es) && IsRetry(es, i, j) :: IsTight(q, ttl, es, i, j)
  }

  // Retry-After is tight in every run exactly when an entry outlives the longest wait less one
  // second, or no wait is longer than a second.
  lemma RetryAfterTightIff(q: Rate, ttl: int)
    requires q.Valid()
    ensures RetryAfterTight(q, ttl) <==> LongestWait(q) == 1 || ttl >= (LongestWait(q) - 1) * q.unit
  {
    hide WellTimed, IsRetry, SweptRetry;
    if LongestWait(q) == 1 || ttl >= (LongestWait(q) - 1) * q.unit {
      forall es, i, j | WellTimed(es) && IsRetry(es, i, j)
        ensures IsTight(q, ttl, es, i, j)
      {
        RetryAfterIsTight(q, ttl, es, i, j);
      }
    } else {
      var g := (LongestWait(q) - 1) * q.unit;
      SweptRetryIsEarly(q, ttl, "ip", g);
      assert !IsTight(q, ttl, SweptRetry(q, "ip", g), q.perMin, q.perMin + 2);
    }
  }
}
