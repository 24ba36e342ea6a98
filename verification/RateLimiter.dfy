/**
 The limiter as the server keeps it: two maps updated in place, buckets updated by reserve
 and cancel, and the middleware that turns a verdict into a response.  Each method is proved
 equal to a step of RateLimiterRuns, where what a client is promised is proved.
 */
module RateLimiter {
  import opened TokenBucket
  import opened RateLimiterRuns
  import RateLimiterPromises

  class TokenLimiter {
    const q: Rate
    var credit: int
    var last: int

    ghost function Value(): Bucket
      reads this
    {
      Bucket(credit, last)
    }

    constructor (q: Rate, now: int)
      ensures this.q == q && Value() == Full(q, now)
    {
      this.q, credit, last := q, q.Cap(), now;
    }

    // Takes a token now and reports the credit that is missing for it.
    method ReserveN(now: int) returns (missing: nat)
      modifies this
      ensures Value() == Reserve(q, old(Value()), now)
      ensures missing == if Value().credit < 0 then -Value().credit else 0
    {
      credit, last := Credit(q, Bucket(credit, last), now) - q.Token(), now;
      missing := if credit < 0 then -credit else 0;
    }

    method CancelAt(now: int)
      modifies this
      ensures Value() == HandBack(q, old(Value()), now)
    {
      var c := Credit(q, Bucket(credit, last), now) + q.Token();
      credit, last := if c > q.Cap() then q.Cap() else c, now;
    }

    // Hands the token back unless it is there now: the request is rejected, not queued.
    method ReserveOrCancel(now: int) returns (ok: bool, missing: nat)
      modifies this
      ensures Value() == Ask(q, old(Value()), now).0
      ensures Ask(q, old(Value()), now).1 == if ok then Admit else Deny(missing)
      ensures ok ==> missing == 0
    {
      missing := ReserveN(now);
      ok := missing == 0;
      if missing > 0 {
        CancelAt(now);
      }
    }
  }

  ghost function Values(m: map<Ip, TokenLimiter>): map<Ip, Bucket>
    reads m.Values
  {
    map ip | ip in m :: m[ip].Value()
  }

  lemma ValuesUpdated(m: map<Ip, TokenLimiter>, before: map<Ip, Bucket>, ip: Ip)
    requires ip in m && m.Keys == before.Keys + {ip}
    requires forall i :: i in m && i != ip ==> m[i].Value() == before[i]
    ensures Values(m) == before[ip := m[ip].Value()]
  {
  }

  // Every IP has a bucket of its own.
  ghost predicate Unshared(q: Rate, m: map<Ip, TokenLimiter>) {
    && (forall ip :: ip in m ==> m[ip].q == q)
    && (forall ip, ip' :: ip in m && ip' in m && ip != ip' ==> m[ip] != m[ip'])
  }

  lemma UnsharedRemoved(q: Rate, m: map<Ip, TokenLimiter>, gone: set<Ip>)
    requires Unshared(q, m)
    ensures Unshared(q, m - gone)
    ensures (m - gone).Values <= m.Values
  {
  }

  lemma ValuesRemoved(m: map<Ip, TokenLimiter>, gone: set<Ip>)
    ensures Values(m - gone) == Values(m) - gone
  {
  }

  class RateLimiter {
    const q: Rate
    var limiters: map<Ip, TokenLimiter>
    var lastSeen: map<Ip, int>

    ghost predicate Valid()
      reads this, limiters.Values
    {
      && q.Valid()
      && limiters.Keys == lastSeen.Keys
      && Unshared(q, limiters)
    }

    ghost function Model(): Table
      reads this, limiters.Values
    {
      Table(Values(limiters), lastSeen)
    }

    constructor (ratePerMin: nat, unit: nat)
      requires ratePerMin > 0 && unit > 0
      ensures Valid() && q == Rate(ratePerMin, unit) && Model() == EMPTY_TABLE
      ensures limiters == map[]
    {
      q := Rate(ratePerMin, unit);
      limiters, lastSeen := map[], map[];
    }

    // The bucket of an IP, created full on first use; every lookup refreshes lastSeen.
    method LimiterFor(ip: Ip, now: int) returns (lim: TokenLimiter)
      requires Valid()
      modifies this
      ensures Valid()
      ensures limiters == old(limiters)[ip := lim]
      ensures ip in old(limiters) ==> lim == old(limiters[ip])
      ensures ip !in old(limiters) ==> fresh(lim)
      ensures lim.Value() == Lookup(q, old(Model()), ip, now)
      ensures lastSeen == old(lastSeen)[ip := now]
    {
      lastSeen := lastSeen[ip := now];
      if ip in limiters {
        lim := limiters[ip];
        assert limiters[ip := lim] == limiters;
      } else {
        lim := new TokenLimiter(q, now);
        limiters := limiters[ip := lim];
      }
    }

    // One request.  `missing` is zero when it may proceed.  The reservation itself never fails:
    // it asks for one token and the burst, ratePerMin, is positive.
    method Allow(ip: Ip, now: int) returns (ok: bool, missing: nat)
      requires Valid()
      modifies this, limiters.Values
      ensures Valid()
      ensures fresh(limiters.Values - old(limiters.Values))
      ensures Model() == AllowStep(q, old(Model()), ip, now).0
      ensures AllowStep(q, old(Model()), ip, now).1 == if ok then Admit else Deny(missing)
      ensures ok ==> missing == 0
    {
      hide Ask, Lookup, Full;
      ghost var before := Model();
      var lim := LimiterFor(ip, now);
      assert limiters[ip] == lim && limiters.Keys == before.buckets.Keys + {ip};
      assert forall i :: i in limiters && i != ip ==> limiters[i] != lim && limiters[i].Value() == before.buckets[i];
      hide Unshared;
      ok, missing := lim.ReserveOrCancel(now);
      assert forall i :: i in limiters && i != ip ==> limiters[i].Value() == before.buckets[i];
      ValuesUpdated(limiters, before.buckets, ip);
      hide Values;
    }

    // Forgets every IP last seen before now - ttl.
    method Gc(now: int, ttl: int)
      requires Valid()
      modifies this
      ensures Valid() && limiters.Values <= old(limiters.Values)
      ensures Model() == GcStep(old(Model()), now, ttl)
    {
      hide Values, Unshared;
      ghost var idle := Idle(Model(), now, ttl);
      DeleteOlder(now - ttl, idle);
      ValuesRemoved(old(limiters), idle);
      UnsharedRemoved(q, old(limiters), idle);
    }

    // The loop of a sweep: visits every key once and deletes it from both maps if it is stale.
    method DeleteOlder(cutoff: int, ghost stale: set<Ip>)
      requires forall ip :: ip in stale <==> ip in lastSeen && lastSeen[ip] < cutoff
      modifies `limiters, `lastSeen
      ensures Without(lastSeen, old(lastSeen), stale) && Without(limiters, old(limiters), stale)
    {
      var todo := lastSeen.Keys;
      ghost var done: set<Ip> := {};
      assert Without(lastSeen, old(lastSeen), done) && Without(limiters, old(limiters), done);
      hide Without;
      while todo != {}
        invariant done <= stale <= done + todo
        invariant forall ip :: ip in todo ==> ip in lastSeen && (ip in stale <==> lastSeen[ip] < cutoff)
        invariant Without(lastSeen, old(lastSeen), done) && Without(limiters, old(limiters), done)
        decreases todo
      {
        var ip :| ip in todo;
        todo := todo - {ip};
        if lastSeen[ip] < cutoff {
          DeleteOne(lastSeen, old(lastSeen), done, ip);
          DeleteOne(limiters, old(limiters), done, ip);
          lastSeen, limiters, done := lastSeen - {ip}, limiters - {ip}, done + {ip};
        }
      }
      assert done == stale;
    }
  }

  ghost predicate Without<K, V>(m: map<K, V>, m0: map<K, V>, gone: set<K>) {
    m == m0 - gone
  }

  lemma DeleteOne<K, V>(m: map<K, V>, m0: map<K, V>, gone: set<K>, k: K)
    requires Without(m, m0, gone)
    ensures Without(m - {k}, m0, gone + {k})
  {
  }

  // A rate of zero or less means the limiter is off, and a limiter that is off admits all.
  method NewRateLimiter(ratePerMin: int, unit: nat) returns (rl: RateLimiter?)
    requires unit > 0
    ensures rl == null <==> ratePerMin <= 0
    ensures rl != null ==> fresh(rl) && rl.Valid() && rl.limiters == map[]
                           && rl.Model() == EMPTY_TABLE && rl.q == Rate(ratePerMin, unit)
  {
    if ratePerMin <= 0 {
      return null;
    }
    rl := new RateLimiter(ratePerMin, unit);
  }

  /* Any interleaving of requests and sweeps, on a new limiter: the object ends in the table of
     the run and gives the answers of the run. */
  method RunLimiter(rl: RateLimiter, ttl: int, es: seq<Event>) returns (answers: seq<Answer>)
    requires rl.Valid() && rl.Model() == EMPTY_TABLE && rl.limiters == map[]
    modifies rl
    ensures rl.Valid() && rl.Model() == After(rl.q, ttl, es)
    ensures answers == Answers(rl.q, ttl, es)
    ensures WellTimed(es) && ttl >= 60 * rl.q.unit - 1 ==>
              && answers == RefAnswers(rl.q, es)
              && forall ip, i: nat, j: nat, t0, d: nat :: IsWindow(ip, es, i, j, t0, d) ==>
                   60 * rl.q.unit * Admitted(ip, es, answers, i, j)
                   <= 60 * rl.q.unit * rl.q.perMin + rl.q.perMin * d
  {
    answers := [];
    var i := 0;
    while i < |es|
      invariant 0 <= i <= |es|
      invariant rl.Valid() && rl.Model() == After(rl.q, ttl, es[..i])
      invariant forall lim :: lim in rl.limiters.Values ==> fresh(lim)
      invariant answers == Answers(rl.q, ttl, es[..i])
    {
      RunAppend(rl.q, ttl, es[..i], es[i]);
      assert es[..i + 1] == es[..i] + [es[i]];
      match es[i] {
        case Request(ip, at) =>
          var ok, missing := rl.Allow(ip, at);
          answers := answers + [Answered(if ok then Admit else Deny(missing))];
        case Gc(at) =>
          rl.Gc(at, ttl);
          answers := answers + [Swept];
      }
      i := i + 1;
    }
    assert es[..i] == es;
    if WellTimed(es) && ttl >= 60 * rl.q.unit - 1 {
      SameAnswers(rl.q, ttl, es);
      AllWindowsBounded(rl.q, ttl, es);
    }
  }

  lemma AllWindowsBounded(q: Rate, ttl: int, es: seq<Event>)
    requires q.Valid() && ttl >= 60 * q.unit - 1 && WellTimed(es)
    ensures forall ip, i: nat, j: nat, t0, d: nat :: IsWindow(ip, es, i, j, t0, d) ==>
              60 * q.unit * Admitted(ip, es, Answers(q, ttl, es), i, j) <= 60 * q.unit * q.perMin + q.perMin * d
  {
    forall ip, i: nat, j: nat, t0, d: nat | IsWindow(ip, es, i, j, t0, d)
      ensures 60 * q.unit * Admitted(ip, es, Answers(q, ttl, es), i, j) <= 60 * q.unit * q.perMin + q.perMin * d
    {
      AdmissionBound(q, ttl, ip, es, i, j, t0, d);
    }
  }

  datatype Response = Served | TooManyRequests(retryAfter: nat)

  const LIMITED_PATHS := {"/api/download", "/api/upload", "/api/ping"}

  // The middleware: only the three test paths are limited, and a refusal carries Retry-After.
  method Serve(rl: RateLimiter?, path: string, ip: Ip, now: int) returns (r: Response)
    requires rl != null ==> rl.Valid()
    modifies if rl == null then {} else {rl}, if rl == null then {} else rl.limiters.Values
    ensures rl == null || path !in {"/api/download", "/api/upload", "/api/ping"} ==> r == Served
    ensures rl != null && path !in {"/api/download", "/api/upload", "/api/ping"} ==>
              rl.Valid() && rl.Model() == old(rl.Model())
    ensures rl != null && path in {"/api/download", "/api/upload", "/api/ping"} ==>
              var (s, v) := AllowStep(rl.q, old(rl.Model()), ip, now);
              && rl.Valid() && rl.Model() == s
              && r == if v.Admit? then Served else TooManyRequests(RateLimiterPromises.RetryAfter(rl.q, v.missing))
  {
    if rl == null || path !in LIMITED_PATHS {
      return Served;
    }
    var ok, missing := rl.Allow(ip, now);
    if ok {
      return Served;
    }
    // ceil(missing / (perMin * unit)) seconds, and at least one
    var perSecond := rl.q.perMin * rl.q.unit;
    var secs := (missing + perSecond - 1) / perSecond;
    if secs < 1 {
      secs := 1;
    }
    r := TooManyRequests(secs);
  }
}
