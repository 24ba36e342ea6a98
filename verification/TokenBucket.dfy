/**
 The token bucket behind one IP, in exact integers.

 The clock counts ticks, `unit` of them to the second.  One token is worth 60 * unit
 credits and every tick earns `perMin` credits, so a bucket of `perMin` tokens fills
 in exactly one minute.  The library that supplies the bucket is not part of this model; the
 operations are the ones the limiter asks of it: advance, cap, reserve one, hand back.
 */
module TokenBucket {

  datatype Rate = Rate(perMin: nat, unit: nat) {
    predicate Valid() {
      perMin > 0 && unit > 0
    }

    // Credits in one token, which is also the number of ticks in one minute.
    function Token(): nat {
      60 * unit
    }

    function Cap(): nat {
      Token() * perMin
    }
  }

  datatype Bucket = Bucket(credit: int, last: int)

  // Deny carries the credits that were missing: the wait is `missing / (perMin * unit)` seconds.
  datatype Verdict = Admit | Deny(missing: nat)

  function Full(q: Rate, now: int): Bucket {
    Bucket(q.Cap(), now)
  }

  // The credit at time `now`: earned since `last`, never above the cap, never lost to a
  // clock that steps back.
  function Credit(q: Rate, b: Bucket, now: int): int {
    var earned := if now < b.last then 0 else q.perMin * (now - b.last);
    if b.credit + earned > q.Cap() then q.Cap() else b.credit + earned
  }

  function Reserve(q: Rate, b: Bucket, now: int): Bucket {
    Bucket(Credit(q, b, now) - q.Token(), now)
  }

  function HandBack(q: Rate, b: Bucket, now: int): Bucket {
    var c := Credit(q, b, now) + q.Token();
    Bucket(if c > q.Cap() then q.Cap() else c, now)
  }

  // One request: reserve, and hand the token back when it would have to wait.
  function Ask(q: Rate, b: Bucket, now: int): (Bucket, Verdict) {
    var r := Reserve(q, b, now);
    if r.credit < 0 then (HandBack(q, r, now), Deny(-r.credit)) else (r, Admit)
  }

  predicate Sane(q: Rate, b: Bucket) {
    0 <= b.credit <= q.Cap()
  }

  lemma EarnedAdds(r: nat, x: int, y: int)
    ensures r * (x + y) == r * x + r * y
  {
  }

  lemma EarnedGrows(r: nat, x: int, y: int)
    requires x <= y
    ensures r * x <= r * y
  {
  }

  lemma CapAtLeastToken(q: Rate)
    requires q.Valid()
    ensures q.Token() <= q.Cap()
  {
    EarnedGrows(q.Token(), 1, q.perMin);
  }

  // The hand-back is exact: a denied request leaves the bucket where the clock put it.
  lemma AskSpends(q: Rate, b: Bucket, now: int)
    requires q.Valid() && Sane(q, b)
    ensures var (b', v) := Ask(q, b, now);
            && Sane(q, b')
            && b'.last == now
            && (v.Admit? <==> 60 * q.unit <= Credit(q, b, now))
            && (v.Admit? ==> b'.credit == Credit(q, b, now) - 60 * q.unit)
            && (v.Deny? ==> b'.credit == Credit(q, b, now) && v.missing == 60 * q.unit - b'.credit)
  {
    CapAtLeastToken(q);
    if now >= b.last {
      EarnedGrows(q.perMin, 0, now - b.last);
    }
  }

  // Waiting in two steps earns what waiting once earns, cap included.
  lemma CreditComposes(q: Rate, b: Bucket, t1: int, t2: int)
    requires q.Valid() && Sane(q, b) && b.last <= t1 <= t2
    ensures Credit(q, Bucket(Credit(q, b, t1), t1), t2) == Credit(q, b, t2)
  {
    EarnedAdds(q.perMin, t1 - b.last, t2 - t1);
    EarnedGrows(q.perMin, 0, t2 - t1);
    EarnedGrows(q.perMin, 0, t1 - b.last);
  }

  // A minute without requests refills any bucket.
  lemma MinuteRefills(q: Rate, b: Bucket, now: int)
    requires q.Valid() && Sane(q, b) && now - b.last >= 60 * q.unit
    ensures Credit(q, b, now) == q.Cap() == 60 * q.unit * q.perMin
  {
    EarnedGrows(q.perMin, q.Token(), now - b.last);
    assert q.perMin * q.Token() == q.Cap();
  }

  // Time only adds, up to the cap; a clock that steps back neither adds nor takes.
  lemma CreditBounds(q: Rate, b: Bucket, now: int)
    requires q.Valid() && Sane(q, b)
    ensures b.credit <= Credit(q, b, now) <= q.Cap()
    ensures now <= b.last ==> Credit(q, b, now) == b.credit
  {
    if now >= b.last {
      EarnedGrows(q.perMin, 0, now - b.last);
    }
  }
}
