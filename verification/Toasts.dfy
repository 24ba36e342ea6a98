/**
 The toast queue: toasts are records whose `dismissed` flag the queue flips, against a bounded
 FIFO of the toasts still showing.  Hooks and action callbacks are foreign: the queue's calls
 to them are logged, and they do not call back into the queue.
 */
module Toasts {

  datatype Level = Info | Warn | Error | Other

  function AutoDismissMs(level: Level): int {
    match level
    case Warn => 5000
    case Error => 8000
    case _ => 3000
  }

  class Toast {
    const id: nat
    const level: Level
    const hasLabel: bool
    const hasAction: bool
    const createdAt: int
    var dismissed: bool

    constructor (id: nat, level: Level, hasLabel: bool, hasAction: bool, createdAt: int)
      ensures this.id == id && this.level == level && this.hasLabel == hasLabel && this.hasAction == hasAction
      ensures this.createdAt == createdAt && !dismissed
    {
      this.id, this.level, this.hasLabel, this.hasAction := id, level, hasLabel, hasAction;
      this.createdAt, dismissed := createdAt, false;
    }
  }

  // ---- the bounded FIFO ---------------------------------------------------------------

  // The toasts showing, oldest first, and the calls made so far to onAdd, onRemove and onAction.
  datatype Queue = Queue(active: seq<Toast>, added: seq<Toast>, removed: seq<Toast>, fired: seq<Toast>)

  datatype Event = Push(t: Toast) | Tick(now: int) | Dismiss(t: Toast) | Trigger(t: Toast)

  predicate Expired(t: Toast, now: int) {
    !t.hasLabel && now - t.createdAt >= AutoDismissMs(t.level)
  }

  // What stays of s, and what goes, in order.
  function Keep(s: seq<Toast>, gone: set<Toast>): (r: seq<Toast>)
    ensures |r| <= |s|
  {
    if s == [] then []
    else Keep(s[..|s| - 1], gone) + if s[|s| - 1] in gone then [] else [s[|s| - 1]]
  }

  function Take(s: seq<Toast>, gone: set<Toast>): seq<Toast> {
    if s == [] then []
    else Take(s[..|s| - 1], gone) + if s[|s| - 1] in gone then [s[|s| - 1]] else []
  }

  function Elems(s: seq<Toast>): set<Toast> {
    set t | t in s
  }

  function ExpiredIn(s: seq<Toast>, now: int): set<Toast> {
    set t | t in s && Expired(t, now)
  }

  // How many toasts a push must evict.
  function Surplus(n: nat, max: nat): nat {
    if n > max then n - max else 0
  }

  function Remove(q: Queue, t: Toast): Queue {
    if t in q.active then q.(active := Keep(q.active, {t}), removed := q.removed + [t]) else q
  }

  function Step(q: Queue, max: nat, e: Event): Queue {
    match e
    case Push(t) =>
      var all := q.active + [t];
      var k := Surplus(|all|, max);
      Queue(all[k..], q.added + [t], q.removed + all[..k], q.fired)
    case Tick(now) =>
      var gone := ExpiredIn(q.active, now);
      q.(active := Keep(q.active, gone), removed := q.removed + Take(q.active, gone))
    case Dismiss(t) => Remove(q, t)
    case Trigger(t) =>
      if t in q.active && t.hasAction then Remove(q, t).(fired := q.fired + [t]) else Remove(q, t)
  }

  function Run(max: nat, es: seq<Event>): Queue {
    if es == [] then Queue([], [], [], [])
    else Step(Run(max, es[..|es| - 1]), max, es[|es| - 1])
  }

  // Each toast is pushed once.
  ghost predicate PushedOnce(es: seq<Event>) {
    forall i, j :: 0 <= i < j < |es| && es[i].Push? && es[j].Push? ==> es[i].t != es[j].t
  }

  ghost predicate Once(s: seq<Toast>) {
    forall t | t in s :: multiset(s)[t] == 1
  }

  /* What every run keeps: never more than max showing; showing are exactly the toasts added and
     not removed, in the order they were added; nothing is removed twice, and an action fires at
     most once, with a removal. */
  ghost predicate Sound(q: Queue, max: nat) {
    |q.active| <= max && Consistent(q)
  }

  ghost predicate Consistent(q: Queue) {
    && multiset(q.added) == multiset(q.active) + multiset(q.removed)
    && q.active == Keep(q.added, Elems(q.removed))
    && Once(q.added) && Once(q.fired)
    && (forall t | t in q.fired :: t in q.removed && t.hasAction)
  }

  // ---- filters ------------------------------------------------------------------------

  lemma {:induction false} KeepTake(s: seq<Toast>, gone: set<Toast>)
    ensures multiset(s) == multiset(Keep(s, gone)) + multiset(Take(s, gone))
    ensures forall t :: t in Keep(s, gone) <==> t in s && t !in gone
    ensures forall t :: t in Take(s, gone) <==> t in s && t in gone
  {
    if s != [] {
      KeepTake(s[..|s| - 1], gone);
      assert s == s[..|s| - 1] + [s[|s| - 1]];
    }
  }

  lemma {:induction false} KeepTwice(s: seq<Toast>, a: set<Toast>, b: set<Toast>)
    ensures Keep(Keep(s, a), b) == Keep(s, a + b)
  {
    if s != [] {
      var n := |s| - 1;
      KeepTwice(s[..n], a, b);
      if s[n] in a {
        assert Keep(s, a) == Keep(s[..n], a);
      } else {
        assert Keep(s, a)[..|Keep(s, a)| - 1] == Keep(s[..n], a);
      }
    }
  }

  lemma {:induction false} KeepAgrees(s: seq<Toast>, a: set<Toast>, b: set<Toast>)
    requires forall t :: t in s ==> (t in a <==> t in b)
    ensures Keep(s, a) == Keep(s, b)
  {
    if s != [] {
      assert s[|s| - 1] in s;
      KeepAgrees(s[..|s| - 1], a, b);
    }
  }

  lemma {:induction false} KeepDropsHead(s: seq<Toast>, k: nat)
    requires Once(s) && k <= |s|
    ensures Keep(s, Elems(s[..k])) == s[k..]
  {
    if k < |s| {
      var n := |s| - 1;
      OnceParts(s, n);
      assert s[..n][..k] == s[..k];
      KeepDropsHead(s[..n], k);
      assert s[n] !in s[..n] && forall t :: t in s[..k] ==> t in s[..n];
      assert s[..n][k..] + [s[n]] == s[k..];
    } else {
      KeepNone(s, Elems(s));
      assert s[..k] == s;
    }
  }

  lemma {:induction false} KeepNone(s: seq<Toast>, gone: set<Toast>)
    requires Elems(s) <= gone
    ensures Keep(s, gone) == []
  {
    if s != [] {
      assert s[|s| - 1] in Elems(s);
      assert Elems(s[..|s| - 1]) <= Elems(s);
      KeepNone(s[..|s| - 1], gone);
    }
  }

  lemma OnceParts(s: seq<Toast>, k: nat)
    requires Once(s) && k <= |s|
    ensures Once(s[..k]) && Once(s[k..])
    ensures forall t :: t in s[..k] ==> t !in s[k..]
  {
    assert s == s[..k] + s[k..];
    forall t | t in s
      ensures multiset(s[..k])[t] + multiset(s[k..])[t] == 1
    {
      assert multiset(s)[t] == multiset(s[..k])[t] + multiset(s[k..])[t];
    }
    assert forall t :: t in s[..k] ==> t in s && t in multiset(s[..k]);
    assert forall t :: t in s[k..] ==> t in s && t in multiset(s[k..]);
  }

  // ---- every run is sound -------------------------------------------------------------

  lemma OnceAppend(s: seq<Toast>, t: Toast)
    requires Once(s) && t !in s
    ensures Once(s + [t])
  {
    assert t !in multiset(s);
    forall x | x in s + [t]
      ensures multiset(s + [t])[x] == 1
    {
      assert x != t ==> x in s;
    }
  }

  lemma ConsistentParts(q: Queue)
    requires Consistent(q)
    ensures Once(q.active) && Once(q.removed)
    ensures forall t :: t in q.added <==> t in q.active || t in q.removed
    ensures forall t :: t in q.active ==> t !in q.removed
  {
    hide Keep;
    var a, r := q.active, q.removed;
    forall t | t in q.added || t in a || t in r
      ensures t in q.added && multiset(a)[t] + multiset(r)[t] == 1
    {
      assert t in multiset(a) || t in multiset(r) || t in multiset(q.added);
      assert t in multiset(q.added);
      assert multiset(q.added)[t] == multiset(a)[t] + multiset(r)[t];
    }
    assert forall t :: t in a ==> t in multiset(a);
    assert forall t :: t in r ==> t in multiset(r);
    assert forall t :: t in multiset(a) ==> t in a;
    assert forall t :: t in multiset(r) ==> t in r;
  }

  function AddOne(q: Queue, t: Toast): Queue {
    q.(active := q.active + [t], added := q.added + [t])
  }

  lemma AddKeepsConsistent(q: Queue, t: Toast)
    requires Consistent(q) && t !in q.added
    ensures Consistent(AddOne(q, t))
  {
    ConsistentParts(q);
    OnceAppend(q.added, t);
    hide Once;
    var added := q.added + [t];
    assert added[..|added| - 1] == q.added;
    assert Keep(added, Elems(q.removed)) == q.active + [t];
  }

  // Taking some toasts out of sight, in whatever order, is all the other operations do.
  lemma MoveOutKeepsConsistent(q: Queue, gone: set<Toast>, out: seq<Toast>)
    requires Consistent(q) && Elems(out) == gone
    requires multiset(q.active) == multiset(Keep(q.active, gone)) + multiset(out)
    ensures Consistent(q.(active := Keep(q.active, gone), removed := q.removed + out))
  {
    hide Keep, Once;
    KeepTwice(q.added, Elems(q.removed), gone);
    assert Elems(q.removed + out) == Elems(q.removed) + gone;
  }

  lemma PushKeepsSound(q: Queue, max: nat, t: Toast)
    requires Sound(q, max) && t !in q.added
    ensures Sound(Step(q, max, Push(t)), max)
  {
    hide Consistent, Keep, Once;
    AddKeepsConsistent(q, t);
    var q1 := AddOne(q, t);
    var all := q1.active;
    var k := Surplus(|all|, max);
    ConsistentParts(q1);
    KeepDropsHead(all, k);
    assert all == all[..k] + all[k..];
    MoveOutKeepsConsistent(q1, Elems(all[..k]), all[..k]);
  }

  lemma TickKeepsSound(q: Queue, max: nat, now: int)
    requires Sound(q, max)
    ensures Sound(Step(q, max, Tick(now)), max)
  {
    hide Consistent, Keep, Take, Once;
    var gone := ExpiredIn(q.active, now);
    KeepTake(q.active, gone);
    assert Elems(Take(q.active, gone)) == gone;
    MoveOutKeepsConsistent(q, gone, Take(q.active, gone));
  }

  lemma RemoveKeepsSound(q: Queue, max: nat, t: Toast)
    requires Sound(q, max)
    ensures Sound(Remove(q, t), max)
  {
    hide Consistent, Keep, Take, Once;
    if t in q.active {
      ConsistentParts(q);
      KeepTake(q.active, {t});
      TakeOne(q.active, t);
      MoveOutKeepsConsistent(q, {t}, [t]);
    }
  }

  lemma {:induction false} TakeOne(s: seq<Toast>, t: Toast)
    requires Once(s)
    ensures Take(s, {t}) == if t in s then [t] else []
  {
    if s != [] {
      var n := |s| - 1;
      OnceParts(s, n);
      TakeOne(s[..n], t);
      assert s[n..] == [s[n]];
    }
  }

  lemma TriggerKeepsSound(q: Queue, max: nat, t: Toast)
    requires Sound(q, max)
    ensures Sound(Step(q, max, Trigger(t)), max)
  {
    hide Keep;
    RemoveKeepsSound(q, max, t);
    if t in q.active && t.hasAction {
      ConsistentParts(q);
      OnceAppend(q.fired, t);
    }
  }

  lemma StepKeepsSound(q: Queue, max: nat, e: Event)
    requires Sound(q, max) && (e.Push? ==> e.t !in q.added)
    ensures Sound(Step(q, max, e), max)
    ensures forall t :: t in Step(q, max, e).added <==> t in q.added || e == Push(t)
  {
    hide Sound, Keep, Take;
    match e {
      case Push(t) => PushKeepsSound(q, max, t);
      case Tick(now) => TickKeepsSound(q, max, now);
      case Dismiss(t) => RemoveKeepsSound(q, max, t);
      case Trigger(t) => TriggerKeepsSound(q, max, t);
    }
  }

  // A push evicts from the oldest on, and only as many as it must.
  lemma PushEvictsOldest(q: Queue, max: nat, t: Toast)
    requires Sound(q, max)
    ensures var q' := Step(q, max, Push(t));
            && q.removed <= q'.removed
            && q.active + [t] == q'.removed[|q.removed|..] + q'.active
            && (q'.removed == q.removed || |q'.active| == max)
  {
    var all := q.active + [t];
    var k := Surplus(|all|, max);
    assert all == all[..k] + all[k..];
    assert (q.removed + all[..k])[|q.removed|..] == all[..k];
  }

  // A tick removes exactly the toasts without an action button whose time is up: three seconds,
  // five for a warning, eight for an error.
  lemma TickRemovesExpired(q: Queue, max: nat, now: int, t: Toast)
    ensures var q' := Step(q, max, Tick(now));
            var ms := if t.level == Warn then 5000 else if t.level == Error then 8000 else 3000;
            && (t in q'.active <==> t in q.active && (t.hasLabel || now < t.createdAt + ms))
            && q.removed <= q'.removed && q'.fired == q.fired
  {
    KeepTake(q.active, ExpiredIn(q.active, now));
  }

  // Triggering shows and removes like a dismissal, and fires the action of a toast still showing;
  // on a toast already gone neither does anything.
  lemma TriggerFiresOnce(q: Queue, max: nat, t: Toast)
    ensures var d, q' := Step(q, max, Dismiss(t)), Step(q, max, Trigger(t));
            && (t !in q.active ==> d == q' == q)
            && q'.active == d.active && q'.removed == d.removed
            && (t in q.active ==> d.removed == q.removed + [t])
            && (forall x :: x in d.active <==> x in q.active && x != t)
            && (t in q'.fired <==> t in q.fired || (t in q.active && t.hasAction))
  {
    KeepTake(q.active, {t});
  }

  // Over any run of push, tick, dismiss and trigger.
  lemma {:induction false} RunIsSound(max: nat, es: seq<Event>)
    requires PushedOnce(es)
    ensures var q := Run(max, es);
            && Sound(q, max)
            && |q.added| == |q.active| + |q.removed|
            && (forall t :: t in q.added <==> Push(t) in es)
  {
    if es == [] {
      assert Run(max, es).added == [];
    } else {
      hide Step, Sound, PushedOnce;
      var n := |es| - 1;
      PushesSplit(es);
      RunIsSound(max, es[..n]);
      StepKeepsSound(Run(max, es[..n]), max, es[n]);
    }
    Conservation(Run(max, es), max);
  }

  lemma PushesSplit(es: seq<Event>)
    requires es != [] && PushedOnce(es)
    ensures var n := |es| - 1;
            && PushedOnce(es[..n])
            && (es[n].Push? ==> es[n] !in es[..n])
            && forall e :: e in es <==> e in es[..n] || e == es[n]
  {
  }

  // Adds minus removes is what is showing.
  lemma Conservation(q: Queue, max: nat)
    requires Sound(q, max)
    ensures |q.added| == |q.active| + |q.removed|
  {
    hide Keep, Once;
    assert |multiset(q.added)| == |multiset(q.active)| + |multiset(q.removed)|;
  }

  // ---- what the page asks of the queue -------------------------------------------------

  // Toasts are named by the order they were pushed in, and a
  // number nobody has stands for a missing toast.
  datatype Command =
    | Show(now: int, level: Level, hasLabel: bool, hasAction: bool)
    | Clock(now: int)
    | Close(k: nat)
    | Click(k: nat)

  // The toasts pushed, in order.
  function Pushes(es: seq<Event>): seq<Toast> {
    if es == [] then []
    else Pushes(es[..|es| - 1]) + if es[|es| - 1].Push? then [es[|es| - 1].t] else []
  }

  // The events a command stands for, when it comes after es.
  ghost predicate Means(c: Command, es: seq<Event>, more: seq<Event>) {
    match c
    case Show(now, level, hasLabel, hasAction) =>
      && |more| == 1 && more[0].Push? && more[0].t.level == level && more[0].t.createdAt == now
      && more[0].t.hasLabel == hasLabel && more[0].t.hasAction == hasAction
    case Clock(now) => more == [Tick(now)]
    case Close(k) => more == if k < |Pushes(es)| then [Dismiss(Pushes(es)[k])] else []
    case Click(k) => more == if k < |Pushes(es)| then [Trigger(Pushes(es)[k])] else []
  }

  // es is what the commands came to, one after the other; `ends[i]` is where command i ended.
  ghost predicate Follows(cs: seq<Command>, es: seq<Event>, ends: seq<nat>) {
    && |ends| == |cs| + 1 && ends[0] == 0 && ends[|cs|] == |es|
    && (forall i, j :: 0 <= i <= j < |ends| ==> ends[i] <= ends[j] <= |es|)
    && (forall i, j :: 0 <= i && j == i + 1 && j < |ends| ==> Means(cs[i], es[..ends[i]], es[ends[i]..ends[j]]))
  }

  lemma FollowsNothing()
    ensures Follows([], [], [0])
  {
  }

  lemma FollowsMore(cs: seq<Command>, c: Command, es: seq<Event>, ends: seq<nat>, more: seq<Event>)
    requires Follows(cs, es, ends) && Means(c, es, more)
    ensures Follows(cs + [c], es + more, ends + [|es| + |more|])
  {
    hide Means;
    var ends' := ends + [|es| + |more|];
    forall i, j | 0 <= i && j == i + 1 && j < |ends'|
      ensures Means((cs + [c])[i], (es + more)[..ends'[i]], (es + more)[ends'[i]..ends'[j]])
    {
      if j < |ends| {
        assert (cs + [c])[i] == cs[i] && ends'[i] == ends[i] && ends'[j] == ends[j];
        assert (es + more)[..ends[i]] == es[..ends[i]];
        assert (es + more)[ends[i]..ends[j]] == es[ends[i]..ends[j]];
      } else {
        assert (cs + [c])[i] == c && ends'[i] == |es| && ends'[j] == |es| + |more|;
        assert (es + more)[..|es|] == es && (es + more)[|es|..|es| + |more|] == more;
      }
    }
  }

  lemma RunMore(max: nat, es: seq<Event>, e: Event)
    ensures Run(max, es + [e]) == Step(Run(max, es), max, e)
    ensures Pushes(es + [e]) == Pushes(es) + if e.Push? then [e.t] else []
  {
    assert (es + [e])[..|es|] == es;
  }

  lemma {:induction false} PushesHas(es: seq<Event>, t: Toast)
    ensures Push(t) in es ==> t in Pushes(es)
  {
    if es != [] {
      PushesHas(es[..|es| - 1], t);
    }
  }

  lemma PushedOnceMore(es: seq<Event>, e: Event)
    requires PushedOnce(es) && (e.Push? ==> e.t !in Pushes(es))
    ensures PushedOnce(es + [e])
  {
    if e.Push? {
      PushesHas(es, e.t);
      forall i | 0 <= i < |es| && es[i].Push?
        ensures es[i].t != e.t
      {
        assert es[i] == Push(es[i].t);
      }
    }
  }

  // ---- the queue object ---------------------------------------------------------------

  function DismissedIn(s: seq<Toast>): set<Toast>
    reads s
  {
    set t | t in s && t.dismissed
  }

  // The toasts of s not dismissed, in order.
  function Live(s: seq<Toast>): seq<Toast>
    reads s
  {
    Keep(s, DismissedIn(s))
  }

  lemma KeepOnce(s: seq<Toast>, gone: set<Toast>)
    requires Once(s)
    ensures Once(Keep(s, gone))
  {
    KeepTake(s, gone);
    forall t | t in Keep(s, gone)
      ensures multiset(Keep(s, gone))[t] == 1
    {
      assert multiset(s)[t] == 1 && t in multiset(Keep(s, gone));
    }
  }

  lemma LiveParts(s: seq<Toast>)
    requires Once(s)
    ensures Once(Live(s))
    ensures forall t :: t in Live(s) <==> t in s && !t.dismissed
  {
    KeepOnce(s, DismissedIn(s));
    KeepTake(s, DismissedIn(s));
  }

  lemma KeepAppend(s: seq<Toast>, gone: set<Toast>, t: Toast)
    requires t !in gone
    ensures Keep(s + [t], gone) == Keep(s, gone) + [t]
  {
    assert (s + [t])[..|s|] == s;
  }

  lemma LiveAppend(s: seq<Toast>, t: Toast)
    requires !t.dismissed
    ensures Live(s + [t]) == Live(s) + [t]
  {
    KeepAppend(s, DismissedIn(s), t);
    assert DismissedIn(s + [t]) == DismissedIn(s);
  }

  lemma NothingTaken(was: set<Toast>, gone: set<Toast>)
    ensures Take(Keep([], was), gone) == []
  {
  }

  lemma HeadOut(s: seq<Toast>)
    requires s != [] && Once(s)
    ensures Keep(s, {s[0]}) == s[1..]
  {
    KeepDropsHead(s, 1);
    assert Elems(s[..1]) == {s[0]};
  }

  lemma PushIs(q: Queue, max: nat, t: Toast)
    ensures var all := q.active + [t];
            var k := Surplus(|all|, max);
            Step(q, max, Event.Push(t)) == Queue(all[k..], q.added + [t], q.removed + all[..k], q.fired)
  {
  }

  lemma ShiftOne(s: seq<Toast>, k: nat)
    requires k < |s|
    ensures s[k..][0] == s[k] && s[k..][1..] == s[k + 1..] && s[..k] + [s[k]] == s[..k + 1]
  {
  }

  // What a tick has removed after looking at one more toast.
  lemma TakeStep(s: seq<Toast>, i: nat, was: set<Toast>, gone: set<Toast>)
    requires Once(s) && i < |s|
    ensures s[i] !in s[..i]
    ensures Take(Keep(s[..i + 1], was), gone)
         == Take(Keep(s[..i], was), gone) + if s[i] !in was && s[i] in gone then [s[i]] else []
  {
    OnceParts(s, i);
    assert s[i] == s[i..][0];
    assert s[..i + 1][..i] == s[..i];
    var k := Keep(s[..i], was);
    if s[i] !in was {
      assert (k + [s[i]])[..|k|] == k;
    } else {
      assert Keep(s[..i + 1], was) == k;
    }
  }

  // Later toasts carry higher ids.
  ghost predicate IdsRise(s: seq<Toast>) {
    forall i, j :: 0 <= i < j < |s| ==> s[i].id < s[j].id
  }

  lemma IdsRiseOn(s: seq<Toast>, t: Toast)
    requires IdsRise(s) && forall x :: x in s ==> x.id < t.id
    ensures IdsRise(s + [t])
  {
  }

  class ToastQueue {
    const max: nat
    var nextId: nat
    var toasts: seq<Toast>
    ghost var removed: seq<Toast>   // calls of onRemove
    ghost var fired: seq<Toast>     // calls of onAction

    ghost predicate Valid()
      reads this, toasts
    {
      && Once(toasts)
      && (forall t :: t in toasts ==> t.id < nextId)
      && IdsRise(toasts)
    }

    // onAdd is called once for each push, with the toast pushed.
    ghost function Model(): Queue
      reads this, toasts
    {
      Queue(Live(toasts), toasts, removed, fired)
    }

    constructor (max: nat)
      ensures Valid() && this.max == max && Model() == Run(max, [])
      ensures toasts == [] && nextId == 1 && HasRun([])
    {
      this.max, nextId, toasts, removed, fired := max, 1, [], [], [];
    }

    method Active() returns (live: seq<Toast>)
      ensures live == Live(toasts)
      ensures forall t :: t in live <==> t in toasts && !t.dismissed
    {
      KeepTake(toasts, DismissedIn(toasts));
      live := Live(toasts);
    }

    method Dismiss(t: Toast)
      requires Valid() && t in toasts
      modifies this`removed, t
      ensures Valid() && t.dismissed
      ensures Model() == Step(old(Model()), max, Event.Dismiss(t))
      ensures DismissedIn(toasts) == old(DismissedIn(toasts)) + {t}
      ensures Live(toasts) == Keep(old(Live(toasts)), {t})
      ensures removed == old(removed) + if old(t.dismissed) then [] else [t]
    {
      hide IdsRise, Keep, Take, Once;
      ghost var was := DismissedIn(toasts);
      KeepTake(toasts, was);
      if t.dismissed {
        assert was + {t} == was;
        KeepTwice(toasts, was, {t});
        return;
      }
      t.dismissed := true;
      removed := removed + [t];
      assert DismissedIn(toasts) == was + {t};
      KeepTwice(toasts, was, {t});
    }

    method Push(now: int, level: Level, hasLabel: bool, hasAction: bool) returns (t: Toast)
      requires Valid()
      modifies this, toasts
      ensures Valid()
      ensures fresh(t) && t.id == old(nextId) && t.level == level && t.createdAt == now
      ensures t.hasLabel == hasLabel && t.hasAction == hasAction
      ensures Model() == Step(old(Model()), max, Event.Push(t))
    {
      hide IdsRise, Keep, Once, Live, DismissedIn, Step;
      ghost var q := Model();
      t := new Toast(nextId, level, hasLabel, hasAction, now);
      Append(t);
      ghost var all := q.active + [t];
      assert Live(toasts) == all;
      EvictSurplus();
      assert Live(toasts) == all[Surplus(|all|, max)..];
      PushIs(q, max, t);
    }

    method Append(t: Toast)
      requires Valid() && t !in toasts && !t.dismissed && t.id == nextId
      modifies this`toasts, this`nextId
      ensures Valid() && nextId == old(nextId) + 1
      ensures toasts == old(toasts) + [t] && Live(toasts) == old(Live(toasts)) + [t]
    {
      hide IdsRise, Keep, Once, Live, DismissedIn;
      OnceAppend(toasts, t);
      IdsRiseOn(toasts, t);
      LiveAppend(toasts, t);
      nextId := nextId + 1;
      toasts := toasts + [t];
    }

    // Dismisses the oldest toasts until at most max are live.
    method EvictSurplus()
      requires Valid()
      modifies this`removed, toasts
      ensures Valid()
      ensures var all := old(Live(toasts));
              var k := Surplus(|all|, max);
              Live(toasts) == all[k..] && removed == old(removed) + all[..k]
    {
      hide IdsRise, Keep, Once, Live, DismissedIn, Step;
      var live := Live(toasts);
      ghost var all, k := live, 0;
      LiveParts(toasts);
      while |live| > max
        invariant k <= |all| && live == all[k..] && Live(toasts) == live && (k == 0 || |live| >= max)
        invariant removed == old(removed) + all[..k]
        invariant Valid() && toasts == old(toasts)
        decreases |live|
      {
        LiveParts(toasts);
        HeadOut(live);
        ShiftOne(all, k);
        assert live[0] in live;
        Dismiss(live[0]);
        live := live[1..];
        k := k + 1;
      }
    }

    method Tick(now: int)
      requires Valid()
      modifies this`removed, toasts
      ensures Valid()
      ensures Model() == Step(old(Model()), max, Event.Tick(now))
    {
      hide IdsRise, Keep, Take, Once;
      ghost var live, was := Live(toasts), DismissedIn(toasts);
      ghost var gone := ExpiredIn(live, now);
      KeepTake(toasts, was);
      NothingTaken(was, gone);
      var i := 0;
      while i < |toasts|
        invariant 0 <= i <= |toasts|
        invariant Valid()
        invariant DismissedIn(toasts) == was + (gone * Elems(toasts[..i]))
        invariant removed == old(removed) + Take(Keep(toasts[..i], was), gone)
      {
        var t := toasts[i];
        TakeStep(toasts, i, was, gone);
        assert t.dismissed <==> t in was;
        assert Elems(toasts[..i + 1]) == Elems(toasts[..i]) + {t};
        if !t.dismissed && !t.hasLabel && now - t.createdAt >= AutoDismissMs(t.level) {
          Dismiss(t);
        }
        i := i + 1;
      }
      assert toasts[..i] == toasts && gone * Elems(toasts) == gone;
      KeepTwice(toasts, was, gone);
    }

    // Runs the action once: a toast already dismissed does nothing.
    method Trigger(t: Toast)
      requires Valid() && t in toasts
      modifies this`removed, this`fired, t
      ensures Valid()
      ensures Model() == Step(old(Model()), max, Event.Trigger(t))
    {
      hide IdsRise, Keep, Once;
      KeepTake(toasts, DismissedIn(toasts));
      if t.dismissed {
        return;
      }
      Dismiss(t);
      if t.hasAction {
        fired := fired + [t];
      }
    }

    // The queue has come through the events es.
    ghost predicate HasRun(es: seq<Event>)
      reads this, toasts
    {
      Valid() && Model() == Run(max, es) && toasts == Pushes(es) && PushedOnce(es)
    }

    lemma Ran(es: seq<Event>, was: Queue, e: Event)
      requires Valid() && was == Run(max, es) && was.added == Pushes(es) && PushedOnce(es)
      requires Model() == Step(was, max, e) && (e.Push? ==> e.t !in was.added)
      ensures HasRun(es + [e])
    {
      RunMore(max, es, e);
      PushedOnceMore(es, e);
      hide IdsRise, PushedOnce, Once, Keep, Pushes, Run;
    }

    lemma RunKeepsSound(es: seq<Event>)
      requires HasRun(es)
      ensures Sound(Model(), max)
    {
      RunIsSound(max, es);
    }

    method Perform(c: Command, ghost es: seq<Event>) returns (ghost more: seq<Event>)
      requires HasRun(es)
      modifies this, toasts
      ensures HasRun(es + more) && Means(c, es, more)
      ensures forall k :: 0 <= k < |toasts| ==>
                (k < |old(toasts)| && toasts[k] == old(toasts)[k]) || fresh(toasts[k])
    {
      hide IdsRise, Once, Keep, Take, Step, PushedOnce, Live;
      more := [];
      ghost var was := Model();
      assert es + more == es;
      match c {
        case Show(now, level, hasLabel, hasAction) =>
          var t := Push(now, level, hasLabel, hasAction);
          more := [Event.Push(t)];
          PushIs(was, max, t);
        case Clock(now) =>
          Tick(now);
          more := [Event.Tick(now)];
        case Close(k) =>
          if k < |toasts| {
            more := [Event.Dismiss(toasts[k])];
            Dismiss(toasts[k]);
          }
        case Click(k) =>
          if k < |toasts| {
            more := [Event.Trigger(toasts[k])];
            Trigger(toasts[k]);
          }
      }
      if more != [] {
        Ran(es, was, more[0]);
      }
    }
  }

  /* A page session: the queue ends in the state of a run of the events its commands came to, each
     toast pushed once, and so within its bounds. */
  method RunQueue(max: nat, cs: seq<Command>) returns (q: ToastQueue, ghost es: seq<Event>, ghost ends: seq<nat>)
    ensures fresh(q) && q.max == max && q.HasRun(es)
    ensures Follows(cs, es, ends) && Sound(q.Model(), max)
  {
    hide *;
    q := new ToastQueue(max);
    es, ends := [], [0];
    FollowsNothing();
    assert cs[..0] == [];
    var i := 0;
    while i < |cs|
      invariant 0 <= i <= |cs|
      invariant fresh(q) && q.max == max && q.HasRun(es)
      invariant forall k :: 0 <= k < |q.toasts| ==> fresh(q.toasts[k])
      invariant Follows(cs[..i], es, ends)
    {
      ghost var more := q.Perform(cs[i], es);
      FollowsMore(cs[..i], cs[i], es, ends, more);
      assert cs[..i + 1] == cs[..i] + [cs[i]];
      es, ends := es + more, ends + [|es| + |more|];
      i := i + 1;
    }
    assert cs[..i] == cs;
    q.RunKeepsSound(es);
  }
}
