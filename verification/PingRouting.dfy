/**
 Where the ping loop puts its samples while a test runs through its phases.  JavaScript runs one
 callback at a time, so a test is a sequence of stage changes and completed pings.
 */
module PingRouting {
  import opened Metrics

  const PING_WINDOW: nat := 20

  datatype Phase = Idle | Pinging | Downloading | Uploading

  datatype Event = Stage(phase: Phase) | Completed(ping: Ping)

  datatype Samples = Samples(
    phase: Phase,
    window: seq<Ping>,
    dl: seq<Ping>,
    ul: seq<Ping>,
    idle: seq<real>,
    loaded: seq<real>)

  const NO_SAMPLES := Samples(Idle, [], [], [], [], [])

  function Step(s: Samples, e: Event): Samples {
    match e
    case Stage(phase) => s.(phase := phase)
    case Completed(p) =>
      s.(window := PushWindow(s.window, p, PING_WINDOW),
         dl := if s.phase.Downloading? then s.dl + [p] else s.dl,
         ul := if s.phase.Uploading? then s.ul + [p] else s.ul,
         idle := if p.ok && s.phase.Pinging? then s.idle + [p.rtt] else s.idle,
         loaded := if p.ok && (s.phase.Downloading? || s.phase.Uploading?) then s.loaded + [p.rtt] else s.loaded)
  }

  function Run(es: seq<Event>): Samples {
    if es == [] then NO_SAMPLES else Step(Run(es[..|es| - 1]), es[|es| - 1])
  }

  // The page's module state, updated in place.
  class TestState {
    var currentPhase: Phase
    var allSamples: seq<Ping>
    var dlSamples: seq<Ping>
    var ulSamples: seq<Ping>
    var idleLatencySamples: seq<real>
    var loadedLatencySamples: seq<real>

    ghost function View(): Samples
      reads this
    {
      Samples(currentPhase, allSamples, dlSamples, ulSamples, idleLatencySamples, loadedLatencySamples)
    }

    constructor ()
      ensures View() == NO_SAMPLES
    {
      currentPhase, allSamples, dlSamples, ulSamples := Idle, [], [], [];
      idleLatencySamples, loadedLatencySamples := [], [];
    }

    method SetStage(phase: Phase)
      modifies this`currentPhase
      ensures currentPhase == phase
      ensures View() == Step(old(View()), Stage(phase))
    {
      currentPhase := phase;
    }

    method OnSample(sample: Ping) returns (lossShown: real)
      modifies this
      ensures View() == Step(old(View()), Completed(sample))
      ensures lossShown == PacketLoss(allSamples)
    {
      allSamples := PushWindow(allSamples, sample, PING_WINDOW);
      if currentPhase == Downloading {
        dlSamples := dlSamples + [sample];
      } else if currentPhase == Uploading {
        ulSamples := ulSamples + [sample];
      }
      if sample.ok {
        if currentPhase == Pinging {
          idleLatencySamples := idleLatencySamples + [sample.rtt];
        } else if currentPhase == Downloading || currentPhase == Uploading {
          loadedLatencySamples := loadedLatencySamples + [sample.rtt];
        }
      }
      lossShown := PacketLoss(allSamples);
    }

    // A whole test: the loss shown last, if any ping completed.
    method RunTest(es: seq<Event>) returns (lossShown: real)
      requires View() == NO_SAMPLES
      modifies this
      ensures View() == Run(es)
      ensures lossShown == PacketLoss(allSamples)
    {
      lossShown := 0.0;
      var i := 0;
      while i < |es|
        invariant 0 <= i <= |es|
        invariant View() == Run(es[..i])
        invariant lossShown == PacketLoss(allSamples)
      {
        assert es[..i + 1][..i] == es[..i];
        match es[i] {
          case Stage(phase) => SetStage(phase);
          case Completed(p) => lossShown := OnSample(p);
        }
        i := i + 1;
      }
      assert es[..i] == es;
    }
  }

  // ---- what a test in order measures --------------------------------------------------

  // runTest sets ping, download, upload and done in that order, and may stop early.
  function Position(phase: Phase): nat {
    match phase
    case Pinging => 1
    case Downloading => 2
    case Uploading => 3
    case Idle => 4
  }

  ghost predicate InOrder(es: seq<Event>) {
    forall i, j :: 0 <= i < j < |es| && es[i].Stage? && es[j].Stage? ==> Position(es[i].phase) < Position(es[j].phase)
  }

  function Pings(es: seq<Event>): seq<Ping> {
    if es == [] then []
    else Pings(es[..|es| - 1]) + if es[|es| - 1].Completed? then [es[|es| - 1].ping] else []
  }

  // Stage event i is the last one before event n.
  ghost predicate IsLastStage(es: seq<Event>, n: nat, i: nat) {
    i < n <= |es| && es[i].Stage? && forall k :: i < k < n ==> !es[k].Stage?
  }

  // The phase the events before n leave the test in: that of the last stage, idle before any.
  ghost predicate InPhase(es: seq<Event>, n: nat, phase: Phase)
    requires n <= |es|
  {
    || (exists i: nat :: IsLastStage(es, n, i) && es[i].phase == phase)
    || (phase == Idle && forall k :: 0 <= k < n ==> !es[k].Stage?)
  }

  // The run knows its phase from the last stage event, whatever came in between.
  lemma {:induction false} PhaseIsLastStage(es: seq<Event>, n: nat)
    requires n <= |es|
    ensures InPhase(es, n, Run(es[..n]).phase)
    ensures forall phase :: InPhase(es, n, phase) ==> phase == Run(es[..n]).phase
  {
    if n > 0 {
      assert es[..n][..n - 1] == es[..n - 1];
      PhaseIsLastStage(es, n - 1);
      if es[n - 1].Stage? {
        assert IsLastStage(es, n, n - 1);
      } else {
        assert forall i: nat :: IsLastStage(es, n, i) <==> IsLastStage(es, n - 1, i);
      }
    }
  }

  // The pings among the first n events that were completed in one of some phases.
  ghost function PingsIn(es: seq<Event>, n: nat, phases: set<Phase>): seq<Ping>
    requires n <= |es|
  {
    if n == 0 then []
    else
      PingsIn(es, n - 1, phases)
      + if es[n - 1].Completed? && exists phase :: phase in phases && InPhase(es, n - 1, phase)
        then [es[n - 1].ping] else []
  }

  lemma OksAppend(ps: seq<Ping>, p: Ping)
    ensures Oks(ps + [p]) == Oks(ps) + if p.ok then [p.rtt] else []
  {
    assert (ps + [p])[..|ps|] == ps;
  }

  // In an ordered test the current phase is the furthest one reached.
  lemma {:induction false} PhaseIsFurthest(es: seq<Event>, i: nat)
    requires InOrder(es) && i < |es| && es[i].Stage?
    ensures Position(es[i].phase) <= Position(Run(es).phase)
  {
    var n := |es| - 1;
    if i < n && es[n].Completed? {
      PhaseIsFurthest(es[..n], i);
    }
  }

  lemma {:induction false} UploadsNeedTheirStage(es: seq<Event>)
    ensures Run(es).ul != [] || Run(es).phase.Uploading? ==> exists i :: 0 <= i < |es| && es[i] == Stage(Uploading)
  {
    if es != [] {
      var n := |es| - 1;
      UploadsNeedTheirStage(es[..n]);
      if exists i :: 0 <= i < n && es[..n][i] == Stage(Uploading) {
        var i :| 0 <= i < n && es[..n][i] == Stage(Uploading);
        assert es[i] == Stage(Uploading);
      } else if es[n] == Stage(Uploading) {
        assert es[n] == Stage(Uploading);
      }
    }
  }

  lemma NoUploadsWhileDownloading(es: seq<Event>)
    requires InOrder(es) && Run(es).phase.Downloading?
    ensures Run(es).ul == []
  {
    UploadsNeedTheirStage(es);
    if Run(es).ul != [] {
      var i :| 0 <= i < |es| && es[i] == Stage(Uploading);
      PhaseIsFurthest(es, i);
    }
  }

  lemma PushAllAppend(ps: seq<Ping>, p: Ping)
    ensures PushAll(ps + [p], PING_WINDOW) == PushWindow(PushAll(ps, PING_WINDOW), p, PING_WINDOW)
  {
    assert (ps + [p])[..|ps|] == ps;
  }

  lemma PingsInStep(es: seq<Event>, n: nat, phases: set<Phase>)
    requires n < |es|
    ensures PingsIn(es, n + 1, phases)
         == if es[n].Completed? && Run(es[..n]).phase in phases then PingsIn(es, n, phases) + [es[n].ping]
            else PingsIn(es, n, phases)
  {
    PhaseIsLastStage(es, n);
    hide InPhase;
  }

  // What the arrays hold after n events.
  ghost predicate Routed(es: seq<Event>, n: nat)
    requires n <= |es|
  {
    var s := Run(es[..n]);
    && s.dl == PingsIn(es, n, {Downloading}) && s.ul == PingsIn(es, n, {Uploading})
    && s.idle == Oks(PingsIn(es, n, {Pinging}))
    && s.loaded == Oks(PingsIn(es, n, {Downloading, Uploading}))
    && s.window == PushAll(Pings(es[..n]), PING_WINDOW)
  }

  lemma RunStep(es: seq<Event>, n: nat)
    requires n < |es|
    ensures Run(es[..n + 1]) == Step(Run(es[..n]), es[n])
    ensures Pings(es[..n + 1]) == if es[n].Completed? then Pings(es[..n]) + [es[n].ping] else Pings(es[..n])
  {
    assert es[..n + 1][..n] == es[..n];
  }

  // The pings of one phase, or of either loaded phase, and the round-trip times among them.
  lemma PingJoins(es: seq<Event>, n: nat, phases: set<Phase>)
    requires n < |es| && es[n].Completed?
    ensures var p, ps, phase := es[n].ping, PingsIn(es, n, phases), Run(es[..n]).phase;
            && PingsIn(es, n + 1, phases) == (if phase in phases then ps + [p] else ps)
            && Oks(PingsIn(es, n + 1, phases)) == if phase in phases && p.ok then Oks(ps) + [p.rtt] else Oks(ps)
  {
    PingsInStep(es, n, phases);
    OksAppend(PingsIn(es, n, phases), es[n].ping);
    hide PingsIn, Oks, Run;
  }

  lemma RoutedStage(es: seq<Event>, n: nat)
    requires n < |es| && es[n].Stage? && Routed(es, n)
    ensures Routed(es, n + 1)
  {
    hide PingsIn, PushWindow, PushAll, Oks, Pings, Run;
    RunStep(es, n);
    PingsInStep(es, n, {Downloading});
    PingsInStep(es, n, {Uploading});
    PingsInStep(es, n, {Pinging});
    PingsInStep(es, n, {Downloading, Uploading});
  }

  lemma RoutedPing(es: seq<Event>, n: nat)
    requires n < |es| && es[n].Completed? && Routed(es, n)
    ensures Routed(es, n + 1)
  {
    hide PingsIn, PushWindow, PushAll, Oks, Pings, Run;
    RunStep(es, n);
    PingJoins(es, n, {Downloading});
    PingJoins(es, n, {Uploading});
    PingJoins(es, n, {Pinging});
    PingJoins(es, n, {Downloading, Uploading});
    PushAllAppend(Pings(es[..n]), es[n].ping);
  }

  // Every sample goes to the phase it was completed in, whatever the order of the phases.
  lemma {:induction false} AlwaysRouted(es: seq<Event>, n: nat)
    requires n <= |es|
    ensures Routed(es, n)
  {
    if n > 0 {
      hide Routed;
      AlwaysRouted(es, n - 1);
      if es[n - 1].Stage? {
        RoutedStage(es, n - 1);
      } else {
        RoutedPing(es, n - 1);
      }
    }
  }

  lemma SamplesByPhase(es: seq<Event>)
    ensures var s, n := Run(es), |es|;
            && s.dl == PingsIn(es, n, {Downloading}) && s.ul == PingsIn(es, n, {Uploading})
            && s.idle == Oks(PingsIn(es, n, {Pinging}))
            && s.loaded == Oks(PingsIn(es, n, {Downloading, Uploading}))
            && s.window == PushAll(Pings(es), PING_WINDOW)
  {
    AlwaysRouted(es, |es|);
    assert es[..|es|] == es;
  }

  // The loaded round-trip times are those of the download followed by those of the upload.
  lemma {:induction false} LoadedIsDownloadThenUpload(es: seq<Event>)
    requires InOrder(es)
    ensures Run(es).loaded == Oks(Run(es).dl) + Oks(Run(es).ul)
  {
    if es != [] {
      var n := |es| - 1;
      var s := Run(es[..n]);
      LoadedIsDownloadThenUpload(es[..n]);
      if es[n].Completed? {
        if s.phase.Downloading? {
          NoUploadsWhileDownloading(es[..n]);
        }
        hide InOrder;
        LoadedStep(s, es[n].ping);
      }
    }
  }

  lemma LoadedStep(s: Samples, p: Ping)
    requires s.loaded == Oks(s.dl) + Oks(s.ul) && (s.phase.Downloading? ==> s.ul == [])
    ensures var s' := Step(s, Completed(p));
            s'.loaded == Oks(s'.dl) + Oks(s'.ul)
  {
    OksAppend(s.dl, p);
    OksAppend(s.ul, p);
    hide PushWindow;
  }

  // The loss shown is the share of failures among the last min(n, 20) pings.
  lemma LossIsRecentFailures(es: seq<Event>)
    requires Pings(es) != []
    ensures var ps := Pings(es);
            var recent := ps[if |ps| > 20 then |ps| - 20 else 0..];
            && Run(es).window == recent
            && PacketLoss(recent) == (|set i | 0 <= i < |recent| && !recent[i].ok| as real / |recent| as real) * 100.0
  {
    SamplesByPhase(es);
    WindowIsTheTail(Pings(es), PING_WINDOW);
    LossIsFailureShare(Run(es).window);
  }
}
