/**
 The hot swap of the geolocation handle as a system of goroutines: any number of requests, the
 updater, and the shutdown sequence of main.  They share the handler's lookup under a read-write
 lock.  Every step between two instructions another goroutine can see is a separate action.

 A reader may take the lock whenever no writer holds it; Go also makes new readers wait for a
 waiting writer, which only removes runs.
 */
module GeoipProtocol {
  import opened Wrappers

  type Tid = nat
  type Handle = nat

  const UPDATER: Tid := 0
  const CLOSER: Tid := 1

  datatype Pc =
    | Resting                      // request not accepted, updater between ticks, shutdown goroutine elsewhere
      // a request
    | Busy
    | ReadWait(locate: bool)       // LocateIP, or geoipEnabled when !locate
    | ReadHeld(locate: bool)
    | Inside(h: Handle)            // in h.Locate
    | ReadDone(locate: bool)
    | Saving
      // the updater
    | Ticking
    | Verified(h: Handle)
    | SetWait(h: Handle)
    | SetHeld(h: Handle)
    | Retire(h: Handle)            // about to Close h under the lock
    | Returned
      // CloseGeoIP
    | CloseWait
    | CloseHeld
    | CloseLive(h: Handle)
    | CloseForget
      // the end of either write section
    | WriteDone

  datatype Stage = Serving | Cancelled | Drained(clean: bool) | StoreClosed(clean: bool) | Finished(clean: bool)

  // What the lock guards, and how often each opened handle has been closed.
  datatype Shared = Shared(installed: Option<Handle>, closed: bool, closes: map<Handle, nat>)

  datatype State = State(
    g: Shared,
    readers: set<Tid>,
    writer: Option<Tid>,
    pcs: map<Tid, Pc>,
    stage: Stage,
    lateSaves: nat)                // history writes that met a closed store
  {
    function Pc(t: Tid): Pc {
      if t in pcs then pcs[t] else Resting
    }

    function At(t: Tid, pc: Pc): State {
      this.(pcs := pcs[t := pc])
    }
  }

  datatype RequestStep =
    | Accept | Respond | CallRead(locate: bool) | RLock | Look | Leave | RUnlock | Save

  datatype UpdaterStep =
    | StartTick | FailTick | Open(h: Handle) | FailRename | CallSet | LeaveLoop

  datatype WriterStep =
    | Lock | Work | Unlock

  datatype ShutdownStep =
    | CancelUpdater | Drain(clean: bool) | CloseStore | CallClose

  datatype Action =
    | Request(t: Tid, serve: RequestStep)
    | Update(tick: UpdaterStep)
    | Write(t: Tid, section: WriterStep)
    | Shutdown(stop: ShutdownStep)

  function Init(lookup: Option<Handle>): State {
    State(Shared(lookup, false, if lookup.Some? then map[lookup.value := 0] else map[]),
          {}, None, map[], Serving, 0)
  }

  function Bump(closes: map<Handle, nat>, h: Handle): map<Handle, nat> {
    closes[h := if h in closes then closes[h] + 1 else 1]
  }

  predicate InWriteSection(pc: Pc) {
    pc.SetHeld? || pc.Retire? || pc.CloseHeld? || pc.CloseLive? || pc.CloseForget? || pc.WriteDone?
  }

  predicate InReadSection(pc: Pc) {
    pc.ReadHeld? || pc.Inside? || pc.ReadDone?
  }

  // One step inside SetGeoIP or CloseGeoIP, between Lock and Unlock.
  function SectionStep(g: Shared, pc: Pc): (Shared, Pc)
    requires InWriteSection(pc) && !pc.WriteDone?
  {
    match pc
    case SetHeld(h) =>
      if g.closed then (g, Retire(h))
      else
        (g.(installed := Some(h)),
         if g.installed.Some? && g.installed != Some(h) then Retire(g.installed.value) else WriteDone)
    case Retire(h) => (g.(closes := Bump(g.closes, h)), WriteDone)
    case CloseHeld =>
      (g.(closed := true), if g.installed.Some? then CloseLive(g.installed.value) else WriteDone)
    case CloseLive(h) => (g.(closes := Bump(g.closes, h)), CloseForget)
    case CloseForget => (g.(installed := None), WriteDone)
  }

  predicate IsRequest(t: Tid) {
    t != UPDATER && t != CLOSER
  }

  predicate RequestEnabled(s: State, t: Tid, step: RequestStep) {
    && IsRequest(t)
    && match step
       case Accept => s.Pc(t).Resting? && (s.stage.Serving? || s.stage.Cancelled?)
       case Respond => s.Pc(t).Busy?
       case CallRead(_) => s.Pc(t).Busy?
       case RLock => s.Pc(t).ReadWait? && s.writer == None
       case Look => s.Pc(t).ReadHeld?
       case Leave => s.Pc(t).Inside?
       case RUnlock => s.Pc(t).ReadDone?
       case Save => s.Pc(t).Saving?
  }

  predicate UpdaterEnabled(s: State, step: UpdaterStep) {
    var pc := s.Pc(UPDATER);
    match step
    case StartTick => pc.Resting?
    case FailTick => pc.Ticking?
    case Open(h) => pc.Ticking? && h !in s.g.closes
    case FailRename => pc.Verified?
    case CallSet => pc.Verified?
    case LeaveLoop => pc.Resting? && !s.stage.Serving?
  }

  predicate WriterEnabled(s: State, t: Tid, step: WriterStep) {
    match step
    case Lock => (s.Pc(t).SetWait? || s.Pc(t).CloseWait?) && s.writer == None && s.readers == {}
    case Work => InWriteSection(s.Pc(t)) && !s.Pc(t).WriteDone?
    case Unlock => s.Pc(t).WriteDone?
  }

  ghost predicate ShutdownEnabled(s: State, step: ShutdownStep) {
    match step
    case CancelUpdater => s.stage.Serving?
    case Drain(clean) => s.stage.Cancelled? && (clean ==> forall t: Tid :: IsRequest(t) ==> s.Pc(t).Resting?)
    case CloseStore => s.stage.Drained?
    case CallClose => s.stage.StoreClosed? && s.Pc(CLOSER).Resting?
  }

  ghost predicate Enabled(s: State, a: Action) {
    match a
    case Request(t, step) => RequestEnabled(s, t, step)
    case Update(step) => UpdaterEnabled(s, step)
    case Write(t, step) => WriterEnabled(s, t, step)
    case Shutdown(step) => ShutdownEnabled(s, step)
  }

  function RequestApply(s: State, t: Tid, step: RequestStep): State
    requires RequestEnabled(s, t, step)
  {
    match step
    case Accept => s.At(t, Busy)
    case Respond => s.At(t, Resting)
    case CallRead(locate) => s.At(t, ReadWait(locate))
    case RLock => s.At(t, ReadHeld(s.Pc(t).locate)).(readers := s.readers + {t})
    case Look =>
      if s.Pc(t).locate && s.g.installed.Some? then s.At(t, Inside(s.g.installed.value))
      else s.At(t, ReadDone(s.Pc(t).locate))
    case Leave => s.At(t, ReadDone(true))
    case RUnlock => s.At(t, if s.Pc(t).locate then Saving else Busy).(readers := s.readers - {t})
    case Save =>
      var late := s.stage.StoreClosed? || s.stage.Finished?;
      s.At(t, Busy).(lateSaves := s.lateSaves + if late then 1 else 0)
  }

  function UpdaterApply(s: State, step: UpdaterStep): State
    requires UpdaterEnabled(s, step)
  {
    match step
    case StartTick => s.At(UPDATER, Ticking)
    case FailTick => s.At(UPDATER, Resting)
    case Open(h) => s.At(UPDATER, Verified(h)).(g := s.g.(closes := s.g.closes[h := 0]))
    case FailRename => s.At(UPDATER, Resting).(g := s.g.(closes := Bump(s.g.closes, s.Pc(UPDATER).h)))
    case CallSet => s.At(UPDATER, SetWait(s.Pc(UPDATER).h))
    case LeaveLoop => s.At(UPDATER, Returned)
  }

  function WriterApply(s: State, t: Tid, step: WriterStep): State
    requires WriterEnabled(s, t, step)
  {
    match step
    case Lock => s.At(t, if s.Pc(t).SetWait? then SetHeld(s.Pc(t).h) else CloseHeld).(writer := Some(t))
    case Work => var (g, pc) := SectionStep(s.g, s.Pc(t)); s.At(t, pc).(g := g)
    case Unlock =>
      var s' := s.At(t, Resting).(writer := None);
      if t == CLOSER && s.stage.StoreClosed? then s'.(stage := Finished(s.stage.clean)) else s'
  }

  ghost function ShutdownApply(s: State, step: ShutdownStep): State
    requires ShutdownEnabled(s, step)
  {
    match step
    case CancelUpdater => s.(stage := Cancelled)
    case Drain(clean) => s.(stage := Drained(clean))
    case CloseStore => s.(stage := StoreClosed(s.stage.clean))
    case CallClose => s.At(CLOSER, CloseWait)
  }

  ghost function Apply(s: State, a: Action): State
    requires Enabled(s, a)
  {
    match a
    case Request(t, step) => RequestApply(s, t, step)
    case Update(step) => UpdaterApply(s, step)
    case Write(t, step) => WriterApply(s, t, step)
    case Shutdown(step) => ShutdownApply(s, step)
  }

  // ---- runs ---------------------------------------------------------------------------

  ghost predicate IsRun(lookup: Option<Handle>, run: seq<State>) {
    && run != []
    && run[0] == Init(lookup)
    && forall i, j :: 0 <= i && j == i + 1 && j < |run| ==> Goes(run[i], run[j])
  }

  ghost predicate Goes(s: State, s': State) {
    exists a :: Enabled(s, a) && s' == Apply(s, a)
  }

  // ---- the inductive invariant --------------------------------------------------------

  // The handle the updater has opened or taken out of use, and has not yet given away.
  function Held(pc: Pc): Option<Handle> {
    match pc
    case Verified(h) => Some(h)
    case SetWait(h) => Some(h)
    case SetHeld(h) => Some(h)
    case Retire(h) => Some(h)
    case _ => None
  }

  predicate RolesKept(t: Tid, pc: Pc) {
    match pc
    case Resting => true
    case WriteDone => !IsRequest(t)
    case Ticking => t == UPDATER
    case Verified(_) => t == UPDATER
    case SetWait(_) => t == UPDATER
    case SetHeld(_) => t == UPDATER
    case Retire(_) => t == UPDATER
    case Returned => t == UPDATER
    case CloseWait => t == CLOSER
    case CloseHeld => t == CLOSER
    case CloseLive(_) => t == CLOSER
    case CloseForget => t == CLOSER
    case _ => IsRequest(t)
  }

  // The lock is what the program counters say it is, and it excludes.
  ghost predicate LockInv(s: State) {
    && (forall t: Tid :: InOrder(s, t))
    && (s.writer.Some? ==> s.readers == {})
  }

  predicate InOrder(s: State, t: Tid) {
    && RolesKept(t, s.Pc(t))
    && (t in s.readers <==> InReadSection(s.Pc(t)))
    && (s.writer == Some(t) <==> InWriteSection(s.Pc(t)))
  }

  // A handle is in exactly one place, and only handles nobody can reach have been closed.
  ghost predicate Custody(g: Shared, held: Option<Handle>, closer: Pc) {
    && (forall h :: h in g.closes ==> g.closes[h] <= 1)
    && (forall h :: h in g.closes && g.closes[h] == 0 ==> held == Some(h) || g.installed == Some(h))
    && (held.Some? ==> held.value in g.closes && g.closes[held.value] == 0 && g.installed != held)
    && (g.installed.Some? ==>
          && g.installed.value in g.closes
          && g.closes[g.installed.value] == if closer.CloseForget? then 1 else 0)
    && (closer.CloseLive? ==> g.installed == Some(closer.h))
    && (closer.CloseForget? ==> g.installed.Some?)
  }

  ghost predicate HandleInv(s: State) {
    Custody(s.g, Held(s.Pc(UPDATER)), s.Pc(CLOSER))
  }

  // A request inside a lookup is inside the installed one.
  ghost predicate ReaderInv(s: State) {
    forall t: Tid :: s.Pc(t).Inside? ==> s.g.installed == Some(s.Pc(t).h)
  }

  // CloseGeoIP runs after the store is closed, and its flag stays up.
  ghost predicate CloserInv(s: State) {
    var closer := s.Pc(CLOSER);
    && (!closer.Resting? ==> s.stage.StoreClosed?)
    && (s.g.closed <==> s.stage.Finished? || closer.CloseLive? || closer.CloseForget? || closer.WriteDone?)
    && (s.stage.Finished? || closer.WriteDone? ==> s.g.installed == None)
  }

  // A drain that finished in time leaves no request behind.
  ghost predicate DrainInv(s: State) {
    && ((s.stage.Drained? || s.stage.StoreClosed? || s.stage.Finished?) && s.stage.clean ==>
          s.lateSaves == 0 && forall t: Tid :: IsRequest(t) ==> s.Pc(t).Resting?)
    && (s.stage.Serving? || s.stage.Cancelled? || s.stage.Drained? ==> s.lateSaves == 0)
  }

  ghost predicate Inv(s: State) {
    LockInv(s) && HandleInv(s) && ReaderInv(s) && CloserInv(s) && DrainInv(s)
  }

  lemma InitInv(lookup: Option<Handle>)
    ensures Inv(Init(lookup))
  {
  }

  // -- what each kind of step leaves alone, and what it does to the goroutine u

  lemma RequestSteps(s: State, t: Tid, step: RequestStep, u: Tid)
    requires RequestEnabled(s, t, step) && InOrder(s, t)
    ensures var s' := RequestApply(s, t, step);
            && s'.g == s.g && s'.writer == s.writer && s'.stage == s.stage
            && (s.writer.Some? ==> s'.readers <= s.readers)
            && (u != t ==> s'.Pc(u) == s.Pc(u))
            && (s'.Pc(u).Inside? ==> s'.Pc(u) == s.Pc(u) || s.g.installed == Some(s'.Pc(u).h))
            && (InOrder(s, u) ==> InOrder(s', u))
  {
    hide SectionStep;
  }

  lemma UpdaterSteps(s: State, step: UpdaterStep, u: Tid)
    requires UpdaterEnabled(s, step) && InOrder(s, UPDATER)
    ensures var s' := UpdaterApply(s, step);
            && s'.readers == s.readers && s'.writer == s.writer && s'.stage == s.stage && s'.lateSaves == s.lateSaves
            && s'.g.installed == s.g.installed && s'.g.closed == s.g.closed
            && (u != UPDATER ==> s'.Pc(u) == s.Pc(u))
            && !s'.Pc(UPDATER).Inside?
            && (InOrder(s, u) ==> InOrder(s', u))
  {
    hide SectionStep, Bump;
  }

  lemma WriterSteps(s: State, t: Tid, step: WriterStep, u: Tid)
    requires WriterEnabled(s, t, step) && InOrder(s, t)
    ensures !IsRequest(t)
    ensures var s' := WriterApply(s, t, step);
            && s'.readers == s.readers && s'.lateSaves == s.lateSaves
            && (u != t ==> s'.Pc(u) == s.Pc(u))
            && !s'.Pc(t).Inside?
            && (step.Work? ==> s.writer == Some(t) && s'.stage == s.stage)
            && (!step.Work? ==> s'.g == s.g)
            && (s'.writer.Some? ==> s.writer.Some? || s.readers == {})
            && (InOrder(s, u) ==> InOrder(s', u))
  {
    hide Bump;
  }

  lemma ShutdownSteps(s: State, step: ShutdownStep, u: Tid)
    requires ShutdownEnabled(s, step)
    ensures var s' := ShutdownApply(s, step);
            && s'.readers == s.readers && s'.writer == s.writer && s'.g == s.g && s'.lateSaves == s.lateSaves
            && (s'.Pc(u) == s.Pc(u) || (u == CLOSER && step.CallClose? && s'.Pc(u).CloseWait?))
            && (InOrder(s, u) ==> InOrder(s', u))
  {
    hide SectionStep;
  }

  lemma LockInvKept(s: State, a: Action)
    requires LockInv(s) && Enabled(s, a)
    ensures LockInv(Apply(s, a))
  {
    hide InOrder, RequestApply, UpdaterApply, WriterApply, ShutdownApply;
    hide RequestEnabled, UpdaterEnabled, WriterEnabled, ShutdownEnabled;
    forall u: Tid
      ensures InOrder(Apply(s, a), u)
      ensures Apply(s, a).writer.Some? ==> Apply(s, a).readers == {}
    {
      assert InOrder(s, u);
      match a {
        case Request(t, step) => assert InOrder(s, t); RequestSteps(s, t, step, u);
        case Update(step) => assert InOrder(s, UPDATER); UpdaterSteps(s, step, u);
        case Write(t, step) => assert InOrder(s, t); WriterSteps(s, t, step, u);
        case Shutdown(step) => ShutdownSteps(s, step, u);
      }
    }
    assert InOrder(Apply(s, a), 0);
  }

  lemma ReaderInvKept(s: State, a: Action)
    requires Inv(s) && Enabled(s, a)
    ensures ReaderInv(Apply(s, a))
  {
    hide HandleInv, CloserInv, DrainInv, RequestApply, UpdaterApply, WriterApply, ShutdownApply;
    hide RequestEnabled, UpdaterEnabled, WriterEnabled, ShutdownEnabled;
    var s' := Apply(s, a);
    forall u: Tid | s'.Pc(u).Inside?
      ensures s'.g.installed == Some(s'.Pc(u).h)
    {
      assert InOrder(s, u);
      match a {
        case Request(t, step) => assert InOrder(s, t); RequestSteps(s, t, step, u);
        case Update(step) => assert InOrder(s, UPDATER); UpdaterSteps(s, step, u);
        case Write(t, step) => assert InOrder(s, t); WriterSteps(s, t, step, u);
        case Shutdown(step) => ShutdownSteps(s, step, u);
      }
    }
  }

  // SetGeoIP and CloseGeoIP hand custody over without a gap.
  lemma SetKeepsCustody(g: Shared, pc: Pc, closer: Pc)
    requires (pc.SetHeld? || pc.Retire?) && !closer.CloseLive? && !closer.CloseForget?
    requires Custody(g, Held(pc), closer) && (g.closed ==> g.installed == None)
    ensures var (g', pc') := SectionStep(g, pc);
            Custody(g', Held(pc'), closer)
  {
  }

  lemma CloseKeepsCustody(g: Shared, held: Option<Handle>, pc: Pc)
    requires pc.CloseHeld? || pc.CloseLive? || pc.CloseForget?
    requires Custody(g, held, pc)
    ensures var (g', pc') := SectionStep(g, pc);
            Custody(g', held, pc')
  {
  }

  lemma WorkKeepsHandles(s: State, t: Tid)
    requires Inv(s) && WriterEnabled(s, t, Work)
    ensures HandleInv(WriterApply(s, t, Work))
  {
    assert InOrder(s, t) && InOrder(s, CLOSER);
    hide Custody, LockInv, ReaderInv, DrainInv, SectionStep;
    if t == UPDATER {
      SetKeepsCustody(s.g, s.Pc(t), s.Pc(CLOSER));
    } else {
      CloseKeepsCustody(s.g, Held(s.Pc(UPDATER)), s.Pc(t));
    }
  }

  // The updater opens a handle, or closes the one it could not rename into place.
  lemma UpdaterKeepsHandles(s: State, step: UpdaterStep)
    requires Inv(s) && UpdaterEnabled(s, step)
    ensures HandleInv(UpdaterApply(s, step))
  {
    hide LockInv, ReaderInv, CloserInv, DrainInv;
  }

  // Taking and giving back the lock moves no handle.
  lemma LockKeepsHandles(s: State, t: Tid, step: WriterStep)
    requires Inv(s) && WriterEnabled(s, t, step) && !step.Work?
    ensures HandleInv(WriterApply(s, t, step))
  {
    assert InOrder(s, t) && Custody(s.g, Held(s.Pc(UPDATER)), s.Pc(CLOSER));
    hide Inv;
  }

  lemma HandleInvKept(s: State, a: Action)
    requires Inv(s) && Enabled(s, a)
    ensures HandleInv(Apply(s, a))
  {
    assert InOrder(s, UPDATER) && InOrder(s, CLOSER);
    match a {
      case Request(t, step) =>
        assert InOrder(s, t);
        RequestSteps(s, t, step, UPDATER);
        RequestSteps(s, t, step, CLOSER);
      case Update(step) =>
        UpdaterKeepsHandles(s, step);
      case Write(t, step) =>
        if step.Work? {
          WorkKeepsHandles(s, t);
        } else {
          LockKeepsHandles(s, t, step);
        }
      case Shutdown(step) =>
        ShutdownSteps(s, step, UPDATER);
        ShutdownSteps(s, step, CLOSER);
    }
    hide Inv, LockInv, Custody, RequestApply, UpdaterApply, WriterApply, ShutdownApply;
    hide UpdaterEnabled, WriterEnabled, ShutdownEnabled;
  }

  lemma WriterKeepsCloser(s: State, t: Tid, step: WriterStep)
    requires CloserInv(s) && InOrder(s, t) && WriterEnabled(s, t, step)
    ensures CloserInv(WriterApply(s, t, step))
  {
    hide Bump, InReadSection;
  }

  lemma CloserInvKept(s: State, a: Action)
    requires Inv(s) && Enabled(s, a)
    ensures CloserInv(Apply(s, a))
  {
    assert CloserInv(s) && InOrder(s, UPDATER);
    match a {
      case Request(t, step) =>
        assert InOrder(s, t);
        RequestSteps(s, t, step, CLOSER);
      case Update(step) =>
        UpdaterSteps(s, step, CLOSER);
      case Write(t, step) =>
        assert InOrder(s, t);
        WriterKeepsCloser(s, t, step);
      case Shutdown(step) =>
        ShutdownSteps(s, step, CLOSER);
    }
    hide Inv, LockInv, InOrder, RequestApply, UpdaterApply, WriterApply, UpdaterEnabled, WriterEnabled;
  }

  lemma RequestKeepsDrain(s: State, t: Tid, step: RequestStep)
    requires DrainInv(s) && RequestEnabled(s, t, step)
    ensures DrainInv(RequestApply(s, t, step))
  {
    hide InReadSection, InWriteSection, SectionStep;
  }

  lemma ShutdownKeepsDrain(s: State, step: ShutdownStep)
    requires DrainInv(s) && ShutdownEnabled(s, step)
    ensures DrainInv(ShutdownApply(s, step))
  {
    hide InReadSection, InWriteSection, SectionStep;
  }

  lemma WriterStages(s: State, t: Tid, step: WriterStep)
    requires WriterEnabled(s, t, step)
    ensures var stage' := WriterApply(s, t, step).stage;
            stage' == s.stage || (s.stage.StoreClosed? && stage' == Finished(s.stage.clean))
  {
  }

  lemma DrainInvKept(s: State, a: Action)
    requires Inv(s) && Enabled(s, a)
    ensures DrainInv(Apply(s, a))
  {
    match a {
      case Request(t, step) =>
        RequestKeepsDrain(s, t, step);
      case Update(step) =>
        assert InOrder(s, UPDATER);
        forall u: Tid ensures IsRequest(u) ==> UpdaterApply(s, step).Pc(u) == s.Pc(u) {
          UpdaterSteps(s, step, u);
        }
        UpdaterSteps(s, step, UPDATER);
      case Write(t, step) =>
        assert InOrder(s, t);
        forall u: Tid ensures IsRequest(u) ==> WriterApply(s, t, step).Pc(u) == s.Pc(u) {
          WriterSteps(s, t, step, u);
        }
        WriterSteps(s, t, step, t);
        WriterStages(s, t, step);
      case Shutdown(step) =>
        ShutdownKeepsDrain(s, step);
    }
    hide LockInv, HandleInv, ReaderInv, CloserInv;
    hide RequestApply, UpdaterApply, WriterApply, ShutdownApply;
  }

  lemma InvKept(s: State, a: Action)
    requires Inv(s) && Enabled(s, a)
    ensures Inv(Apply(s, a))
  {
    hide Apply, Enabled, LockInv, HandleInv, ReaderInv, CloserInv, DrainInv;
    LockInvKept(s, a);
    HandleInvKept(s, a);
    ReaderInvKept(s, a);
    CloserInvKept(s, a);
    DrainInvKept(s, a);
  }

  // Every state of every run satisfies the invariant.
  lemma {:induction false} RunInv(lookup: Option<Handle>, run: seq<State>, i: nat)
    requires IsRun(lookup, run) && i < |run|
    ensures Inv(run[i])
  {
    hide Apply, Enabled, Inv;
    if i == 0 {
      InitInv(lookup);
    } else {
      RunInv(lookup, run, i - 1);
      assert Goes(run[i - 1], run[i]);
      var a :| Enabled(run[i - 1], a) && run[i] == Apply(run[i - 1], a);
      InvKept(run[i - 1], a);
    }
  }

  // ---- what it guarantees -------------------------------------------------------------

  // No request is ever inside a closed lookup, whatever swaps and shutdown do meanwhile.
  lemma NeverInsideClosedLookup(lookup: Option<Handle>, run: seq<State>, i: nat, t: Tid)
    requires IsRun(lookup, run) && i < |run| && run[i].Pc(t).Inside?
    ensures var h := run[i].Pc(t).h;
            && run[i].g.installed == Some(h)
            && h in run[i].g.closes && run[i].g.closes[h] == 0
  {
    RunInv(lookup, run, i);
    var s := run[i];
    assert InOrder(s, t) && InOrder(s, CLOSER);
  }

  // Close is never called on a lookup while a request is inside it.
  lemma CloseFindsNobodyInside(lookup: Option<Handle>, run: seq<State>, i: nat, h: Handle, t: Tid)
    requires IsRun(lookup, run) && i + 1 < |run|
    requires h in run[i].g.closes && h in run[i + 1].g.closes && run[i].g.closes[h] != run[i + 1].g.closes[h]
    ensures run[i].g.closes[h] == 0 && run[i + 1].g.closes[h] == 1
    ensures run[i].Pc(t) != Inside(h)
  {
    hide Apply, Enabled;
    RunInv(lookup, run, i);
    RunInv(lookup, run, i + 1);
    assert Goes(run[i], run[i + 1]);
    var a :| Enabled(run[i], a) && run[i + 1] == Apply(run[i], a);
    OnlyOneCloses(run[i], a, h);
    if run[i].Pc(t) == Inside(h) {
      NeverInsideClosedLookup(lookup, run, i, t);
      InsideExcludesWriter(run[i], a, t);
    }
  }

  lemma OnlyOneCloses(s: State, a: Action, h: Handle)
    requires Inv(s) && Enabled(s, a) && h in s.g.closes
    ensures h in Apply(s, a).g.closes && s.g.closes[h] <= Apply(s, a).g.closes[h]
    ensures s.g.closes[h] < Apply(s, a).g.closes[h] ==>
              || (a.Write? && a.section.Work?)
              || (a.Update? && Held(s.Pc(UPDATER)) == Some(h))
  {
    assert a.Request? ==> InOrder(s, a.t);
    hide LockInv, ReaderInv, CloserInv, DrainInv;
    match a {
      case Request(t, step) => RequestSteps(s, t, step, t);
      case Update(_) =>
      case Write(_, _) =>
      case Shutdown(step) => ShutdownSteps(s, step, CLOSER);
    }
  }

  lemma InsideExcludesWriter(s: State, a: Action, t: Tid)
    requires Inv(s) && Enabled(s, a) && s.Pc(t).Inside?
    ensures !(a.Write? && a.section.Work?)
    ensures Held(s.Pc(UPDATER)) != Some(s.Pc(t).h)
  {
    assert InOrder(s, t);
    assert a.Write? ==> InOrder(s, a.t);
  }

  // The one place a handle opened so far is in.
  datatype Place = WithUpdater | Installed | Closed

  ghost predicate IsIn(s: State, h: Handle, p: Place) {
    match p
    case WithUpdater => Held(s.Pc(UPDATER)) == Some(h)
    case Installed => s.g.installed == Some(h) && !s.Pc(CLOSER).CloseForget?
    case Closed => h in s.g.closes && s.g.closes[h] >= 1
  }

  // Conservation: at each moment every handle is in exactly one place, and is closed at most once.
  lemma HandleConservation(lookup: Option<Handle>, run: seq<State>, i: nat, h: Handle)
    requires IsRun(lookup, run) && i < |run| && h in run[i].g.closes
    ensures run[i].g.closes[h] <= 1
    ensures exists p :: IsIn(run[i], h, p)
    ensures forall p, p' :: IsIn(run[i], h, p) && IsIn(run[i], h, p') ==> p == p'
  {
    RunInv(lookup, run, i);
    var s := run[i];
    assert IsIn(s, h, if s.g.closes[h] >= 1 then Closed
                      else if Held(s.Pc(UPDATER)) == Some(h) then WithUpdater else Installed);
  }

  // Once CloseGeoIP has run and no tick is in flight, nothing is left open.
  lemma AllClosedAtTheEnd(lookup: Option<Handle>, run: seq<State>, i: nat, h: Handle)
    requires IsRun(lookup, run) && i < |run| && h in run[i].g.closes
    requires run[i].stage.Finished? && Held(run[i].Pc(UPDATER)) == None
    ensures run[i].g.closes[h] == 1
  {
    RunInv(lookup, run, i);
  }

  // After CloseGeoIP every LocateIP finds no lookup, even if a late swap still comes.
  lemma NobodyEntersAfterClose(lookup: Option<Handle>, run: seq<State>, i: nat, j: nat, t: Tid)
    requires IsRun(lookup, run) && i <= j < |run| && run[i].stage.Finished?
    ensures run[j].stage.Finished? && run[j].g.installed == None && !run[j].Pc(t).Inside?
  {
    FinishedStays(lookup, run, i, j);
    RunInv(lookup, run, j);
  }

  lemma {:induction false} FinishedStays(lookup: Option<Handle>, run: seq<State>, i: nat, j: nat)
    requires IsRun(lookup, run) && i <= j < |run| && run[i].stage.Finished?
    ensures run[j].stage.Finished?
  {
    hide Enabled, Apply;
    if i < j {
      FinishedStays(lookup, run, i, j - 1);
      assert Goes(run[j - 1], run[j]);
      var a :| Enabled(run[j - 1], a) && run[j] == Apply(run[j - 1], a);
      FinishedKept(run[j - 1], a);
    }
  }

  lemma FinishedKept(s: State, a: Action)
    requires Enabled(s, a) && s.stage.Finished?
    ensures Apply(s, a).stage.Finished?
  {
    hide SectionStep;
  }

  // The drain is over, in time or not.
  predicate DrainOver(stage: Stage) {
    stage.Drained? || stage.StoreClosed? || stage.Finished?
  }

  // From the end of a drain in time on, no request is running and no history write has met a
  // closed store.
  lemma CleanDrainSavesAll(lookup: Option<Handle>, run: seq<State>, i: nat)
    requires IsRun(lookup, run) && i < |run| && DrainOver(run[i].stage) && run[i].stage.clean
    ensures run[i].lateSaves == 0
    ensures forall t: Tid :: IsRequest(t) ==> run[i].Pc(t).Resting?
  {
    RunInv(lookup, run, i);
  }

  // Some run reaches s with its drain over, in time or not.
  ghost predicate Reached(s: State, clean: bool) {
    && DrainOver(s.stage) && s.stage.clean == clean
    && exists lookup, run :: run != [] && IsRun(lookup, run) && s == run[|run| - 1]
  }

  // CloseGeoIP has been called while request t is inside a lookup.
  predicate CalledDuringLocate(s: State, t: Tid) {
    s.Pc(CLOSER).CloseWait? && s.Pc(t).Inside?
  }

  ghost predicate CloseCanMeetLocate(clean: bool) {
    exists s, t :: Reached(s, clean) && CalledDuringLocate(s, t)
  }

  ghost predicate SaveCanMeetClosedStore(clean: bool) {
    exists s :: Reached(s, clean) && s.lateSaves > 0
  }

  lemma OneMoreStep(lookup: Option<Handle>, run: seq<State>, a: Action) returns (run': seq<State>)
    requires run != [] && IsRun(lookup, run) && Enabled(run[|run| - 1], a)
    ensures IsRun(lookup, run') && |run'| == |run| + 1 && run'[|run|] == Apply(run[|run| - 1], a)
  {
    run' := run + [Apply(run[|run| - 1], a)];
    hide Apply, Enabled;
    assert Goes(run[|run| - 1], run'[|run|]);
  }

  lemma RequestInside() returns (run: seq<State>)
    ensures run != [] && IsRun(Some(7), run)
    ensures var s := run[|run| - 1];
            s.stage == Serving && s.lateSaves == 0 && s.Pc(2) == Inside(7) && s.Pc(CLOSER).Resting? && s.writer == None
  {
    hide IsRun;
    run := [Init(Some(7))];
    assert IsRun(Some(7), run) by { StartIsRun(Some(7)); }
    run := OneMoreStep(Some(7), run, Request(2, Accept));
    run := OneMoreStep(Some(7), run, Request(2, CallRead(true)));
    run := OneMoreStep(Some(7), run, Request(2, RLock));
    run := OneMoreStep(Some(7), run, Request(2, Look));
  }

  // A request inside lookup 7 when the drain gives up, and CloseGeoIP called while it is there.
  lemma MissedDrain() returns (run: seq<State>)
    ensures run != [] && IsRun(Some(7), run)
    ensures var s := run[|run| - 1];
            && s.stage == StoreClosed(false) && s.lateSaves == 0
            && s.Pc(2) == Inside(7) && s.Pc(CLOSER).CloseWait? && s.writer == None
  {
    hide IsRun;
    run := RequestInside();
    run := OneMoreStep(Some(7), run, Shutdown(CancelUpdater));
    run := OneMoreStep(Some(7), run, Shutdown(Drain(false)));
    run := OneMoreStep(Some(7), run, Shutdown(CloseStore));
    run := OneMoreStep(Some(7), run, Shutdown(CallClose));
  }

  lemma StartIsRun(lookup: Option<Handle>)
    ensures IsRun(lookup, [Init(lookup)])
  {
  }

  // The same request goes on to save its result, and meets the closed store.
  lemma SaveAfterMissedDrain() returns (run: seq<State>)
    ensures run != [] && IsRun(Some(7), run)
    ensures run[|run| - 1].stage == StoreClosed(false) && run[|run| - 1].lateSaves == 1
  {
    hide IsRun;
    run := MissedDrain();
    run := OneMoreStep(Some(7), run, Request(2, Leave));
    run := OneMoreStep(Some(7), run, Request(2, RUnlock));
    run := OneMoreStep(Some(7), run, Request(2, Save));
  }

  lemma NothingMetAfterCleanDrain(s: State)
    requires Reached(s, true)
    ensures s.lateSaves == 0 && forall t :: !CalledDuringLocate(s, t)
  {
    hide IsRun;
    var lookup, run :| run != [] && IsRun(lookup, run) && s == run[|run| - 1];
    RunInv(lookup, run, |run| - 1);
    CleanDrainSavesAll(lookup, run, |run| - 1);
    forall t: Tid
      ensures !CalledDuringLocate(s, t)
    {
      assert InOrder(s, t);
    }
  }

  /* CloseGeoIP can be called with a request inside LocateIP, and a history write can meet the
     closed store, if and only if the drain missed its deadline. */
  lemma OverlapsIffDrainMissed(clean: bool)
    ensures CloseCanMeetLocate(clean) <==> !clean
    ensures SaveCanMeetClosedStore(clean) <==> !clean
  {
    hide IsRun;
    if clean {
      forall s | Reached(s, true)
        ensures s.lateSaves == 0 && forall t :: !CalledDuringLocate(s, t)
      {
        NothingMetAfterCleanDrain(s);
      }
    } else {
      var run := MissedDrain();
      assert Reached(run[|run| - 1], false) && CalledDuringLocate(run[|run| - 1], 2);
      run := SaveAfterMissedDrain();
      assert Reached(run[|run| - 1], false);
    }
  }

  // LocateIP from its lock to the end of the save that follows: with a lookup or without one.
  lemma LocateGoesOnToSave(s: State, t: Tid)
    requires IsRequest(t) && s.Pc(t) == ReadHeld(true)
    ensures var s1 := RequestApply(s, t, Look);
            && s1.Pc(t) == (if s.g.installed.Some? then Inside(s.g.installed.value) else ReadDone(true))
            && var s2 := if s1.Pc(t).Inside? then RequestApply(s1, t, Leave) else s1;
               && s2.Pc(t) == ReadDone(true)
               && var s3 := RequestApply(s2, t, RUnlock);
                  && s3.Pc(t) == Saving && t !in s3.readers
                  && RequestApply(s3, t, Save).Pc(t) == Busy
  {
  }

  // geoipEnabled takes the lock, looks, and is done: it enters no lookup and saves nothing.
  lemma EnabledOnlyLooks(s: State, t: Tid)
    requires IsRequest(t) && s.Pc(t) == ReadHeld(false)
    ensures var s1 := RequestApply(s, t, Look);
            s1.Pc(t) == ReadDone(false) && RequestApply(s1, t, RUnlock).Pc(t) == Busy
  {
  }

  ghost predicate StoreClosedBy(run: seq<State>, i: nat) {
    exists k :: 0 <= k <= i < |run| && run[k].stage.StoreClosed?
  }

  lemma StageKept(s: State, a: Action)
    requires Enabled(s, a)
    ensures var closed := s.stage.StoreClosed? || s.stage.Finished?;
            && (closed ==> Apply(s, a).stage.StoreClosed? || Apply(s, a).stage.Finished?)
            && (!closed ==> !Apply(s, a).stage.Finished?)
  {
    hide SectionStep;
  }

  lemma {:induction false} ClosedStoreStays(lookup: Option<Handle>, run: seq<State>, i: nat)
    requires IsRun(lookup, run) && i < |run|
    ensures StoreClosedBy(run, i) <==> run[i].stage.StoreClosed? || run[i].stage.Finished?
  {
    hide Enabled, Apply;
    if i > 0 {
      ClosedStoreStays(lookup, run, i - 1);
      assert Goes(run[i - 1], run[i]);
      var a :| Enabled(run[i - 1], a) && run[i] == Apply(run[i - 1], a);
      StageKept(run[i - 1], a);
      assert StoreClosedBy(run, i - 1) ==> StoreClosedBy(run, i);
    }
  }

  // A save is counted as late exactly when the store has been closed at some time before it.
  lemma SaveIsLateIff(lookup: Option<Handle>, run: seq<State>, i: nat, t: Tid)
    requires IsRun(lookup, run) && i < |run| && RequestEnabled(run[i], t, Save)
    ensures RequestApply(run[i], t, Save).lateSaves
         == run[i].lateSaves + if StoreClosedBy(run, i) then 1 else 0
  {
    ClosedStoreStays(lookup, run, i);
    hide IsRun, StoreClosedBy;
  }

  ghost predicate LoopInv(s: State) {
    s.Pc(UPDATER).Returned? ==> !s.stage.Serving?
  }

  lemma LoopInvKept(s: State, a: Action)
    requires InOrder(s, UPDATER) && LoopInv(s) && Enabled(s, a)
    ensures LoopInv(Apply(s, a))
  {
  }

  // The update loop never returns before it is cancelled.
  lemma {:induction false} LoopEndsByCancel(lookup: Option<Handle>, run: seq<State>, i: nat)
    requires IsRun(lookup, run) && i < |run|
    ensures run[i].Pc(UPDATER).Returned? ==> !run[i].stage.Serving?
  {
    if i > 0 {
      LoopEndsByCancel(lookup, run, i - 1);
      RunInv(lookup, run, i - 1);
      assert InOrder(run[i - 1], UPDATER) && LoopInv(run[i - 1]);
      hide Enabled, Apply, Inv, InOrder;
      assert Goes(run[i - 1], run[i]);
      var a :| Enabled(run[i - 1], a) && run[i] == Apply(run[i - 1], a);
      LoopInvKept(run[i - 1], a);
    }
  }

  // A swap while the server runs: 8 takes the place of 7, and 7 is closed.
  lemma HotSwap() returns (run: seq<State>)
    ensures run != [] && IsRun(Some(7), run)
    ensures var s := run[|run| - 1];
            s.stage == Serving && s.g == Shared(Some(8), false, map[7 := 1, 8 := 0]) && s.writer == None
  {
    hide IsRun;
    run := SwapWaits();
    run := OneMoreStep(Some(7), run, Write(UPDATER, Lock));
    run := OneMoreStep(Some(7), run, Write(UPDATER, Work));
    run := OneMoreStep(Some(7), run, Write(UPDATER, Work));
    run := OneMoreStep(Some(7), run, Write(UPDATER, Unlock));
  }

  lemma SwapWaits() returns (run: seq<State>)
    ensures run != [] && IsRun(Some(7), run)
    ensures var s := run[|run| - 1];
            && s.stage == Serving && s.g == Shared(Some(7), false, map[7 := 0, 8 := 0])
            && s.pcs == map[UPDATER := SetWait(8)] && s.writer == None && s.readers == {}
  {
    hide IsRun;
    run := [Init(Some(7))];
    assert IsRun(Some(7), run) by { StartIsRun(Some(7)); }
    run := OneMoreStep(Some(7), run, Update(StartTick));
    run := OneMoreStep(Some(7), run, Update(Open(8)));
    run := OneMoreStep(Some(7), run, Update(CallSet));
  }

  // A verified lookup that could not be renamed into place is closed, and 7 stays.
  lemma FailedRename() returns (run: seq<State>)
    ensures run != [] && IsRun(Some(7), run)
    ensures run[|run| - 1].g == Shared(Some(7), false, map[7 := 0, 8 := 1]) && run[|run| - 1].Pc(UPDATER).Resting?
  {
    hide IsRun;
    run := [Init(Some(7))];
    assert IsRun(Some(7), run) by { StartIsRun(Some(7)); }
    run := OneMoreStep(Some(7), run, Update(StartTick));
    run := OneMoreStep(Some(7), run, Update(Open(8)));
    run := OneMoreStep(Some(7), run, Update(FailRename));
  }

  // The same swap overtaken by a shutdown whose drain ended in time: both are closed, and the
  // update loop returns.
  lemma LateSwap() returns (run: seq<State>)
    ensures run != [] && IsRun(Some(7), run)
    ensures run[|run| - 1].stage == Finished(true) && run[|run| - 1].g == Shared(None, true, map[7 := 1, 8 := 1])
    ensures run[|run| - 1].Pc(UPDATER).Returned?
  {
    hide IsRun;
    run := ShutDownFirst();
    run := OneMoreStep(Some(7), run, Write(UPDATER, Lock));
    run := OneMoreStep(Some(7), run, Write(UPDATER, Work));
    run := OneMoreStep(Some(7), run, Write(UPDATER, Work));
    run := OneMoreStep(Some(7), run, Write(UPDATER, Unlock));
    run := OneMoreStep(Some(7), run, Update(LeaveLoop));
  }

  lemma ShutDownFirst() returns (run: seq<State>)
    ensures run != [] && IsRun(Some(7), run)
    ensures var s := run[|run| - 1];
            && s.stage == Finished(true) && s.g == Shared(None, true, map[7 := 1, 8 := 0])
            && s.Pc(UPDATER) == SetWait(8) && s.writer == None && s.readers == {}
  {
    hide IsRun;
    run := CloseHasClosed();
    run := OneMoreStep(Some(7), run, Write(CLOSER, Work));
    run := OneMoreStep(Some(7), run, Write(CLOSER, Unlock));
  }

  lemma CloseHasClosed() returns (run: seq<State>)
    ensures run != [] && IsRun(Some(7), run)
    ensures var s := run[|run| - 1];
            && s.stage == StoreClosed(true) && s.g == Shared(Some(7), true, map[7 := 1, 8 := 0])
            && s.Pc(UPDATER) == SetWait(8) && s.Pc(CLOSER) == CloseForget && s.writer == Some(CLOSER) && s.readers == {}
  {
    hide IsRun;
    run := CloseWaits();
    run := OneMoreStep(Some(7), run, Write(CLOSER, Lock));
    run := OneMoreStep(Some(7), run, Write(CLOSER, Work));
    run := OneMoreStep(Some(7), run, Write(CLOSER, Work));
  }

  lemma CloseWaits() returns (run: seq<State>)
    ensures run != [] && IsRun(Some(7), run)
    ensures var s := run[|run| - 1];
            && s.stage == StoreClosed(true) && s.g == Shared(Some(7), false, map[7 := 0, 8 := 0])
            && s.Pc(UPDATER) == SetWait(8) && s.Pc(CLOSER) == CloseWait && s.writer == None && s.readers == {}
  {
    hide IsRun;
    run := SwapWaits();
    run := OneMoreStep(Some(7), run, Shutdown(CancelUpdater));
    run := OneMoreStep(Some(7), run, Shutdown(Drain(true)));
    run := OneMoreStep(Some(7), run, Shutdown(CloseStore));
    run := OneMoreStep(Some(7), run, Shutdown(CallClose));
  }

  // Go makes new readers wait for a waiting writer; runs in which they do not wait only add to
  // what can happen, so safety is proved over them, but progress must not count on them.
  ghost predicate GoAllows(s: State, a: Action) {
    && Enabled(s, a)
    && (a.Request? && a.serve.RLock? ==> forall w :: !WaitsToWrite(s, w))
  }

  predicate WaitsToWrite(s: State, w: Tid) {
    s.Pc(w).SetWait? || s.Pc(w).CloseWait?
  }

  predicate TakesLock(a: Action) {
    (a.Request? && a.serve.RLock?) || (a.Write? && a.section.Lock?)
  }

  // Whenever somebody waits for the lock, Go lets a waiter take it now, or lets somebody inside
  // move on towards giving it back.
  lemma NoDeadlock(lookup: Option<Handle>, run: seq<State>, i: nat, t: Tid)
    requires IsRun(lookup, run) && i < |run|
    requires run[i].Pc(t).ReadWait? || run[i].Pc(t).SetWait? || run[i].Pc(t).CloseWait?
    ensures exists a :: GoAllows(run[i], a) && (TakesLock(a) || Frees(run[i], a))
  {
    RunInv(lookup, run, i);
    var s := run[i];
    assert InOrder(s, t) && (s.Pc(t).ReadWait? || WaitsToWrite(s, t));
    hide Frees, Inv, IsRun;
    if s.writer.Some? {
      WriterMovesOn(s, s.writer.value);
    } else if s.readers != {} {
      var r :| r in s.readers;
      ReaderMovesOn(s, r);
    } else if w :| WaitsToWrite(s, w) {
      assert GoAllows(s, Write(w, Lock));
    } else {
      assert GoAllows(s, Request(t, RLock));
    }
  }

  // While a writer waits, no step short of a writer's Lock lets a reader in or takes anybody inside
  // further from leaving: the steps NoDeadlock finds run out.
  lemma WritersAreNotStarved(s: State, a: Action, w: Tid, u: Tid)
    requires GoAllows(s, a) && WaitsToWrite(s, w) && !(a.Write? && a.section.Lock?)
    ensures var s' := Apply(s, a);
            && WaitsToWrite(s', w)
            && (u in s'.readers ==> u in s.readers)
            && ToGo(s'.Pc(u)) <= ToGo(s.Pc(u))
  {
    assert a.Request? && a.serve.RLock? ==> !WaitsToWrite(s, w);
  }

  lemma WriterMovesOn(s: State, w: Tid)
    requires Inv(s) && s.writer == Some(w)
    ensures exists a :: Frees(s, a) && GoAllows(s, a)
  {
    hide HandleInv, ReaderInv, CloserInv, DrainInv;
    assert InOrder(s, w);
    assert Frees(s, Write(w, if s.Pc(w).WriteDone? then Unlock else Work));
  }

  lemma ReaderMovesOn(s: State, r: Tid)
    requires Inv(s) && r in s.readers
    ensures exists a :: Frees(s, a) && GoAllows(s, a)
  {
    hide HandleInv, ReaderInv, CloserInv, DrainInv;
    assert InOrder(s, r);
    assert Frees(s, Request(r, if s.Pc(r).ReadHeld? then Look else if s.Pc(r).Inside? then Leave else RUnlock));
  }

  // A step of a goroutine inside a locked section, towards its end.
  ghost predicate Frees(s: State, a: Action) {
    && Enabled(s, a)
    && (a.Write? || a.Request?)
    && ToGo(Apply(s, a).Pc(a.t)) < ToGo(s.Pc(a.t))
  }

  // How many steps a goroutine is from giving the lock back.
  function ToGo(pc: Pc): nat {
    match pc
    case ReadHeld(_) => 3
    case Inside(_) => 2
    case ReadDone(_) => 1
    case SetHeld(_) => 3
    case Retire(_) => 2
    case CloseHeld => 4
    case CloseLive(_) => 3
    case CloseForget => 2
    case WriteDone => 1
    case _ => 0
  }

  // ---- each write section is one transition of what the lock guards -------------------

  // What SetGeoIP(h) does, as a whole.
  function SetEffect(g: Shared, h: Handle): Shared {
    if g.closed then g.(closes := Bump(g.closes, h))
    else
      Shared(Some(h), false,
             if g.installed.Some? && g.installed != Some(h) then Bump(g.closes, g.installed.value) else g.closes)
  }

  // What CloseGeoIP does, as a whole.
  function CloseEffect(g: Shared): Shared {
    Shared(None, true, if g.installed.Some? then Bump(g.closes, g.installed.value) else g.closes)
  }

  function Finish(g: Shared, pc: Pc): Shared
    requires InWriteSection(pc)
    decreases ToGo(pc)
  {
    if pc.WriteDone? then g
    else
      var (g', pc') := SectionStep(g, pc);
      Finish(g', pc')
  }

  lemma {:induction false} SetIsOneTransition(g: Shared, h: Handle)
    ensures Finish(g, SetHeld(h)) == SetEffect(g, h)
  {
    var (g1, pc1) := SectionStep(g, SetHeld(h));
    if pc1.Retire? {
      assert Finish(g1, pc1) == SectionStep(g1, pc1).0;
    }
  }

  lemma {:induction false} CloseIsOneTransition(g: Shared)
    ensures Finish(g, CloseHeld) == CloseEffect(g)
  {
    var (g1, pc1) := SectionStep(g, CloseHeld);
    if pc1.CloseLive? {
      var (g2, pc2) := SectionStep(g1, pc1);
      assert Finish(g2, pc2) == SectionStep(g2, pc2).0;
    }
  }

  // While one goroutine is in a write section, no other changes what it reads or closes
  // a handle it can reach.
  lemma LockProtects(s: State, a: Action, t: Tid)
    requires Inv(s) && Enabled(s, a) && s.writer == Some(t) && a != Write(t, Work) && a != Write(t, Unlock)
    ensures var s' := Apply(s, a);
            && s'.writer == s.writer && s'.Pc(t) == s.Pc(t)
            && s'.g.installed == s.g.installed && s'.g.closed == s.g.closed
            && forall h :: h in s.g.closes && h in s'.g.closes && s'.g.closes[h] != s.g.closes[h]
                           ==> t == CLOSER && Held(s.Pc(UPDATER)) == Some(h) && s.g.installed != Some(h)
  {
    assert InOrder(s, UPDATER) && InOrder(s, t) && HandleInv(s);
    assert a.Write? ==> InOrder(s, a.t);
    match a {
      case Request(u, step) =>
        assert InOrder(s, u);
        RequestSteps(s, u, step, t);
      case Update(step) =>
        UpdaterSteps(s, step, t);
        UpdaterCloses(s, step);
      case Write(_, _) =>
      case Shutdown(step) =>
        ShutdownSteps(s, step, t);
    }
    hide Inv, RequestApply, ShutdownApply, UpdaterApply, UpdaterEnabled, SectionStep;
  }

  lemma UpdaterCloses(s: State, step: UpdaterStep)
    requires UpdaterEnabled(s, step)
    ensures var closes' := UpdaterApply(s, step).g.closes;
            forall h :: h in s.g.closes && h in closes' && closes'[h] != s.g.closes[h] ==>
              Held(s.Pc(UPDATER)) == Some(h)
  {
    hide SectionStep, InWriteSection;
  }
}
