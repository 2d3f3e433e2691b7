/** Cancelling a share while it is being prepared (linux/src/draft.rs). One thread runs `run`, any
    number run `cancel`, the session may close at any time, and the calls into the core may fail.
    Atomics and session calls are sequentially consistent steps. */
module CancelRace {
  type Thread = nat

  /** The core's view of the share with this preparation's id: Published while the provider serves it. */
  datatype Share = Absent | Importing | Published | Stopped

  datatype RunResult = Shared | Failed | Cancelled

  datatype RunPhase =
    | NotStarted
    | Calling                       // first check passed, about to enter the session
    | InCore                        // inside core.share_files
    | Rechecking(result: RunResult) // share_files returned
    | CancellingOwn                 // the second check saw the intent
    | OwnInCore                     // inside the core.cancel_transfer that follows
    | Returning(result: RunResult)
    | Returned(result: RunResult)   // `finished` is set

  datatype CancelPhase =
    | Looping                       // about to enter the session
    | CancelInCore                  // inside core.cancel_transfer
    | Checking(sawClosed: bool)
    | Done

  datatype State = State(
    share: Share, cancelled: bool, finished: bool, closed: bool, run: RunPhase, cancels: map<Thread, CancelPhase>)

  const INITIAL := State(Absent, false, false, false, NotStarted, map[])

  /** A call is entered, which a closed session refuses, and takes effect later, also after a close:
      `stops` says whether it did. It does not if the repository fails, or on an import that does not
      notice. `StopElsewhere` is any other part of the program that cancels or deletes the transfer. */
  datatype Action =
    | FirstCheck | EnterShare | Register | Publish | ShareFails | SecondCheck
    | EnterOwn | OwnCancel(stops: bool) | Finish
    | RequestCancel(t: Thread) | EnterCancel(t: Thread) | Cancel(t: Thread, stops: bool) | CheckFinished(t: Thread)
    | CloseSession | StopElsewhere

  ghost predicate Enabled(s: State, a: Action) {
    match a
    case FirstCheck => s.run.NotStarted?
    case EnterShare => s.run.Calling?
    case Register => s.run.InCore? && s.share.Absent?
    case Publish => s.run.InCore? && s.share.Importing?
    case ShareFails => s.run.InCore?
    case SecondCheck => s.run.Rechecking?
    case EnterOwn => s.run.CancellingOwn?
    case OwnCancel(_) => s.run.OwnInCore?
    case Finish => s.run.Returning?
    case RequestCancel(t) => t !in s.cancels
    case EnterCancel(t) => t in s.cancels && s.cancels[t].Looping?
    case Cancel(t, _) => t in s.cancels && s.cancels[t].CancelInCore?
    case CheckFinished(t) => t in s.cancels && s.cancels[t].Checking?
    case CloseSession => true
    case StopElsewhere => true
  }

  function Stop(share: Share): Share {
    if share.Absent? then Absent else Stopped
  }

  ghost function Step(s: State, a: Action): State
    requires Enabled(s, a)
  {
    match a
    case FirstCheck => s.(run := if s.cancelled then Returning(Cancelled) else Calling)
    case EnterShare => s.(run := if s.closed then Rechecking(Failed) else InCore)
    case Register => s.(share := Importing)
    case Publish => s.(share := Published, run := Rechecking(Shared))
    case ShareFails => s.(share := Stop(s.share), run := Rechecking(Failed))
    case SecondCheck => s.(run := if s.cancelled then CancellingOwn else Returning(s.run.result))
    case EnterOwn => s.(run := if s.closed then Returning(Cancelled) else OwnInCore)
    case OwnCancel(stops) => s.(share := if stops then Stop(s.share) else s.share, run := Returning(Cancelled))
    case Finish => s.(finished := true, run := Returned(s.run.result))
    case RequestCancel(t) => s.(cancelled := true, cancels := s.cancels[t := Looping])
    case EnterCancel(t) => s.(cancels := s.cancels[t := if s.closed then Checking(true) else CancelInCore])
    case Cancel(t, stops) =>
      s.(share := if stops then Stop(s.share) else s.share, cancels := s.cancels[t := Checking(false)])
    case CheckFinished(t) =>
      s.(cancels := s.cancels[t := if s.finished || s.cancels[t].sawClosed then Done else Looping])
    case CloseSession => s.(closed := true)
    case StopElsewhere => s.(share := Stop(s.share))
  }

  ghost predicate Inv(s: State) {
    && (s.cancelled <==> s.cancels != map[])
    && (s.finished <==> s.run.Returned?)
    && (s.share.Importing? ==> s.run.InCore?)
    && (s.share.Published? ==> AfterShare(s.run))
    && (s.share.Published? && s.run.Rechecking? ==> s.run.result.Shared?)
    && (forall t | t in s.cancels && s.cancels[t].Checking? && s.cancels[t].sawClosed :: s.closed)
    && (forall t | t in s.cancels && s.cancels[t].Done? :: s.finished || s.closed)
  }

  predicate AfterShare(p: RunPhase) {
    p.Rechecking? || p.CancellingOwn? || p.OwnInCore? || p.Returning? || p.Returned?
  }

  lemma InvPreserved(s: State, a: Action)
    requires Inv(s) && Enabled(s, a)
    ensures Inv(Step(s, a))
  {
  }

  ghost predicate StepAt(states: seq<State>, actions: seq<Action>, i: nat) {
    i < |actions| < |states| && Enabled(states[i], actions[i]) && states[i + 1] == Step(states[i], actions[i])
  }

  ghost predicate IsRun(states: seq<State>, actions: seq<Action>) {
    |states| == |actions| + 1 && states[0] == INITIAL && forall i: nat | i < |actions| :: StepAt(states, actions, i)
  }

  lemma {:induction false} RunInv(states: seq<State>, actions: seq<Action>, i: nat)
    requires IsRun(states, actions) && i <= |actions|
    ensures Inv(states[i])
  {
    if i > 0 {
      RunInv(states, actions, i - 1);
      assert StepAt(states, actions, i - 1);
      InvPreserved(states[i - 1], actions[i - 1]);
    }
  }

  /** A call into the core gets in exactly if the session is open when it is made. */
  lemma EntersIffOpen(states: seq<State>, actions: seq<Action>, i: nat)
    requires IsRun(states, actions) && i < |actions|
    ensures actions[i].EnterShare? ==> states[i + 1].run == if states[i].closed then Rechecking(Failed) else InCore
    ensures actions[i].EnterOwn? ==> states[i + 1].run == if states[i].closed then Returning(Cancelled) else OwnInCore
    ensures actions[i].EnterCancel? ==> actions[i].t in states[i + 1].cancels
    ensures actions[i].EnterCancel? ==>
      states[i + 1].cancels[actions[i].t] == if states[i].closed then Checking(true) else CancelInCore
    ensures states[i].closed <==> exists m | 0 <= m < i :: actions[m].CloseSession?
  {
    assert StepAt(states, actions, i);
    ClosedIff(states, actions, i);
  }

  lemma {:induction false} ClosedIff(states: seq<State>, actions: seq<Action>, i: nat)
    requires IsRun(states, actions) && i <= |actions|
    ensures states[i].closed <==> exists m | 0 <= m < i :: actions[m].CloseSession?
  {
    if i > 0 {
      ClosedIff(states, actions, i - 1);
      assert StepAt(states, actions, i - 1);
    }
  }

  /** A call that comes before the registration stops nothing: the share is unknown until then. And an
      import ends with the call that makes it. */
  lemma {:induction false} UnknownUntilRegistered(states: seq<State>, actions: seq<Action>, i: nat)
    requires IsRun(states, actions) && i <= |actions|
    ensures states[i].share.Absent? <==> forall m | 0 <= m < i :: !actions[m].Register?
    ensures states[i].share.Importing? ==> states[i].run.InCore?
  {
    RunInv(states, actions, i);
    if i > 0 {
      UnknownUntilRegistered(states, actions, i - 1);
      RunInv(states, actions, i - 1);
      assert StepAt(states, actions, i - 1);
    }
  }

  // ---------------------------------------------------------------- what cancelling guarantees

  /** A cancelling call that does not do its work: the session refuses it, or it fails on a share that
      is published. */
  ghost predicate Misses(s: State, a: Action) {
    match a
    case EnterOwn => s.closed
    case EnterCancel(_) => s.closed
    case OwnCancel(stops) => s.share.Published? && !stops
    case Cancel(_, stops) => s.share.Published? && !stops
    case _ => false
  }

  /** Unless a call missed: a share still published has the second check or its own cancellation ahead
      of it, or was returned before any cancelling call took effect; and a cancel is over only after
      `run` is. */
  ghost predicate OnTrack(s: State) {
    && (s.share.Published? && (s.run.Returning? || s.run.Returned?) ==>
          s.run.result.Shared? && forall t | t in s.cancels :: s.cancels[t].Looping? || s.cancels[t].CancelInCore?)
    && (forall t | t in s.cancels && s.cancels[t].Done? :: s.finished)
    && (forall t | t in s.cancels && s.cancels[t].Checking? :: !s.cancels[t].sawClosed)
  }

  lemma OnTrackPreserved(s: State, a: Action)
    requires Inv(s) && OnTrack(s) && Enabled(s, a) && !Misses(s, a)
    ensures OnTrack(Step(s, a))
  {
  }

  lemma {:induction false} RunOnTrack(states: seq<State>, actions: seq<Action>, i: nat)
    requires IsRun(states, actions) && i <= |actions| && forall m | 0 <= m < i :: !Misses(states[m], actions[m])
    ensures OnTrack(states[i])
  {
    if i > 0 {
      RunOnTrack(states, actions, i - 1);
      RunInv(states, actions, i - 1);
      assert StepAt(states, actions, i - 1);
      OnTrackPreserved(states[i - 1], actions[i - 1]);
    }
  }

  /** In every interleaving in which no cancelling call was refused by a closed session or failed on a
      published share: once a cancel has returned, `run` has returned too and nothing is published under
      the id; nor is anything after `run` reported Cancelled. */
  lemma CancelLeavesNothingPublished(states: seq<State>, actions: seq<Action>, i: nat)
    requires IsRun(states, actions) && i <= |actions| && forall m | 0 <= m < i :: !Misses(states[m], actions[m])
    ensures (exists t | t in states[i].cancels :: states[i].cancels[t].Done?) ==>
      states[i].run.Returned? && !states[i].share.Published?
    ensures states[i].run == Returned(Cancelled) ==> !states[i].share.Published?
    ensures states[i].share.Published? && states[i].run.Returned? ==> states[i].run == Returned(Shared)
  {
    RunInv(states, actions, i);
    RunOnTrack(states, actions, i);
  }

  /** While the session is open none was refused. */
  lemma {:induction false} OpenRefusesNone(states: seq<State>, actions: seq<Action>, i: nat, m: nat)
    requires IsRun(states, actions) && m < i <= |actions| && !states[i].closed
    ensures !states[m].closed
    ensures Misses(states[m], actions[m]) ==>
      states[m].share.Published? && (actions[m].OwnCancel? || actions[m].Cancel?)
  {
    assert StepAt(states, actions, i - 1);
    if m < i - 1 {
      OpenRefusesNone(states, actions, i - 1, m);
    }
  }

  lemma StoppedAfter(s: State, a: Action)
    requires Enabled(s, a) && s.share.Stopped?
    ensures Step(s, a).share.Stopped?
  {
  }

  /** A stopped share stays stopped: cancelling is final. */
  lemma {:induction false} StoppedIsFinal(states: seq<State>, actions: seq<Action>, i: nat, j: nat)
    requires IsRun(states, actions) && i <= j <= |actions| && states[i].share.Stopped?
    ensures states[j].share.Stopped?
  {
    if i < j {
      StoppedIsFinal(states, actions, i, j - 1);
      assert StepAt(states, actions, j - 1);
      StoppedAfter(states[j - 1], actions[j - 1]);
    }
  }

  // ---------------------------------------------------------------- exactly when a share survives

  /** A cancelling call that worked, or another part of the program that stopped the transfer. */
  predicate Stops(a: Action) {
    ((a.Cancel? || a.OwnCancel?) && a.stops) || a.StopElsewhere?
  }

  ghost predicate SparedSince(states: seq<State>, actions: seq<Action>, k: int, i: int) {
    && 0 <= k < i <= |actions| < |states| && actions[k].Publish?
    && forall m | k < m < i :: !Stops(actions[m])
  }

  lemma PublishedAfter(s: State, a: Action)
    requires Inv(s) && Enabled(s, a)
    ensures Step(s, a).share.Published? <==> a.Publish? || (s.share.Published? && !Stops(a))
  {
  }

  /** In every run a share is published exactly if it was published once and since then every
      cancelling call found the session closed or failed, and nothing else stopped it. */
  lemma {:induction false} PublishedIff(states: seq<State>, actions: seq<Action>, i: nat)
    requires IsRun(states, actions) && i <= |actions|
    ensures states[i].share.Published? <==> exists k :: SparedSince(states, actions, k, i)
  {
    if i > 0 {
      var n := i - 1;
      var a := actions[n];
      RunInv(states, actions, n);
      PublishedIff(states, actions, n);
      assert StepAt(states, actions, n);
      PublishedAfter(states[n], a);
      if k :| SparedSince(states, actions, k, n) {
        assert !Stops(a) ==> SparedSince(states, actions, k, i);
      }
      if k :| SparedSince(states, actions, k, i) && k < n {
        assert SparedSince(states, actions, k, n);
      }
      assert a.Publish? ==> SparedSince(states, actions, n, i);
    }
  }

  /** A call of a cancel, or of `run` itself. */
  predicate CancelsHere(a: Action) {
    a.Cancel? || a.OwnCancel?
  }

  lemma {:induction false} CallsWereRequested(states: seq<State>, actions: seq<Action>, i: nat, m: nat)
    requires IsRun(states, actions) && m < i <= |actions| && actions[m].Cancel?
    ensures states[i].cancels != map[]
  {
    assert StepAt(states, actions, i - 1);
    if m == i - 1 {
      assert actions[m].t in states[i].cancels;
    } else {
      CallsWereRequested(states, actions, i - 1, m);
      GrowsCancels(states[i - 1], actions[i - 1]);
    }
  }

  lemma GrowsCancels(s: State, a: Action)
    requires Enabled(s, a)
    ensures s.cancels.Keys <= Step(s, a).cancels.Keys
  {
  }

  /** A share that was returned was published before any cancelling call took effect. */
  lemma {:induction false} SharedWasPublished(states: seq<State>, actions: seq<Action>, i: nat) returns (k: nat)
    requires IsRun(states, actions) && i <= |actions|
    requires states[i].run in {Rechecking(Shared), Returning(Shared), Returned(Shared)}
    ensures k < i && actions[k].Publish?
    ensures !states[i].run.Rechecking? ==> forall m | 0 <= m < k :: !CancelsHere(actions[m])
  {
    assert StepAt(states, actions, i - 1);
    var before, a := states[i - 1], actions[i - 1];
    SharedBefore(before, a);
    if a.Publish? {
      k := i - 1;
    } else {
      k := SharedWasPublished(states, actions, i - 1);
      if a.SecondCheck? {
        RunInv(states, actions, i - 1);
        forall m | 0 <= m < k ensures !CancelsHere(actions[m]) {
          NoCallBefore(states, actions, i - 1, m);
        }
      }
    }
  }

  lemma SharedBefore(s: State, a: Action)
    requires Enabled(s, a) && Step(s, a).run in {Rechecking(Shared), Returning(Shared), Returned(Shared)}
    ensures !a.Publish? ==> s.run in {Rechecking(Shared), Returning(Shared), Returned(Shared)}
    ensures a.SecondCheck? ==> !s.cancelled
    ensures !a.SecondCheck? && !Step(s, a).run.Rechecking? ==> !s.run.Rechecking?
  {
  }

  lemma NoCallBefore(states: seq<State>, actions: seq<Action>, i: nat, m: nat)
    requires IsRun(states, actions) && m < i <= |actions| && states[i].run.Rechecking? && !states[i].cancelled
    ensures !CancelsHere(actions[m])
  {
    RunInv(states, actions, i);
    if actions[m].Cancel? {
      CallsWereRequested(states, actions, i, m);
    }
    if actions[m].OwnCancel? {
      OwnCancelComesLast(states, actions, m, i);
    }
  }

  lemma {:induction false} OwnCancelComesLast(states: seq<State>, actions: seq<Action>, m: nat, i: nat)
    requires IsRun(states, actions) && m < i <= |actions| && actions[m].OwnCancel?
    ensures states[i].run == Returning(Cancelled) || states[i].run == Returned(Cancelled)
  {
    assert StepAt(states, actions, i - 1);
    if m < i - 1 {
      OwnCancelComesLast(states, actions, m, i - 1);
    }
  }

  /** A `run` that reported success left its share published exactly if, since its publication, nothing
      else stopped it and every cancelling call so far found the session closed or failed. */
  lemma SharedStaysIff(states: seq<State>, actions: seq<Action>, i: nat)
    requires IsRun(states, actions) && i <= |actions| && states[i].run == Returned(Shared)
    ensures exists k | 0 <= k < i ::
      && actions[k].Publish?
      && (states[i].share.Published? <==>
            && (forall m | 0 <= m < i && CancelsHere(actions[m]) :: !actions[m].stops)
            && (forall m | k < m < i :: !actions[m].StopElsewhere?))
  {
    PublishedIff(states, actions, i);
    var k := SharedWasPublished(states, actions, i);
    if (forall m | 0 <= m < i && CancelsHere(actions[m]) :: !actions[m].stops)
       && (forall m | k < m < i :: !actions[m].StopElsewhere?) {
      assert SparedSince(states, actions, k, i);
    }
    if states[i].share.Published? {
      var n :| SparedSince(states, actions, n, i);
      PublishedOnce(states, actions, k, n, i);
      forall m | 0 <= m < i && CancelsHere(actions[m]) ensures !actions[m].stops {
        assert m != k;
      }
    }
  }

  lemma {:induction false} PublishedBefore(states: seq<State>, actions: seq<Action>, k: nat, i: nat)
    requires IsRun(states, actions) && k < i <= |actions| && actions[k].Publish?
    ensures AfterShare(states[i].run)
  {
    assert StepAt(states, actions, i - 1);
    if k < i - 1 {
      PublishedBefore(states, actions, k, i - 1);
    }
  }

  lemma PublishedOnce(states: seq<State>, actions: seq<Action>, k: nat, n: nat, i: nat)
    requires IsRun(states, actions) && k < i <= |actions| && n < i && actions[k].Publish? && actions[n].Publish?
    ensures k == n
  {
    assert StepAt(states, actions, k) && StepAt(states, actions, n);
    if k < n {
      PublishedBefore(states, actions, k, n);
    } else if n < k {
      PublishedBefore(states, actions, n, k);
    }
  }

  // ---------------------------------------------------------------- instances

  lemma Extend(states: seq<State>, actions: seq<Action>, a: Action, next: State)
    returns (states': seq<State>, actions': seq<Action>)
    requires IsRun(states, actions) && Enabled(states[|actions|], a) && next == Step(states[|actions|], a)
    ensures IsRun(states', actions') && states'[|actions'|] == next
  {
    states', actions' := states + [next], actions + [a];
    forall i: nat | i < |actions'| ensures StepAt(states', actions', i) {
      assert i < |actions| ==> StepAt(states, actions, i);
    }
  }

  lemma ReachShared() returns (states: seq<State>, actions: seq<Action>)
    ensures IsRun(states, actions)
    ensures states[|actions|] == INITIAL.(share := Published, run := Returned(Shared), finished := true)
  {
    states, actions := [INITIAL], [];
    states, actions := Extend(states, actions, FirstCheck, INITIAL.(run := Calling));
    states, actions := Extend(states, actions, EnterShare, INITIAL.(run := InCore));
    states, actions := Extend(states, actions, Register, INITIAL.(run := InCore, share := Importing));
    var s := INITIAL.(share := Published, run := Rechecking(Shared));
    states, actions := Extend(states, actions, Publish, s);
    s := s.(run := Returning(Shared));
    states, actions := Extend(states, actions, SecondCheck, s);
    states, actions := Extend(states, actions, Finish, s.(run := Returned(Shared), finished := true));
  }

  /** A run in which the session closes after publication: both threads return and the share is still
      published. */
  lemma ClosingLeavesShare() returns (states: seq<State>, actions: seq<Action>)
    ensures IsRun(states, actions)
    ensures states[|actions|] == State(Published, true, true, true, Returned(Shared), map[0 := Done])
  {
    states, actions := ReachShared();
    var s := INITIAL.(share := Published, run := Returned(Shared), finished := true, closed := true);
    states, actions := Extend(states, actions, CloseSession, s);
    s := s.(cancelled := true, cancels := map[0 := Looping]);
    states, actions := Extend(states, actions, RequestCancel(0), s);
    s := s.(cancels := map[0 := Checking(true)]);
    states, actions := Extend(states, actions, EnterCancel(0), s);
    states, actions := Extend(states, actions, CheckFinished(0), s.(cancels := map[0 := Done]));
  }

  /** A run in which the session stays open and the one cancelling call fails: again both threads return
      and the share is still published. */
  lemma FailingCallLeavesShare() returns (states: seq<State>, actions: seq<Action>)
    ensures IsRun(states, actions)
    ensures states[|actions|] == State(Published, true, true, false, Returned(Shared), map[0 := Done])
  {
    states, actions := ReachShared();
    var s := INITIAL.(share := Published, run := Returned(Shared), finished := true);
    s := s.(cancelled := true, cancels := map[0 := Looping]);
    states, actions := Extend(states, actions, RequestCancel(0), s);
    s := s.(cancels := map[0 := CancelInCore]);
    states, actions := Extend(states, actions, EnterCancel(0), s);
    s := s.(cancels := map[0 := Checking(false)]);
    states, actions := Extend(states, actions, Cancel(0, false), s);
    states, actions := Extend(states, actions, CheckFinished(0), s.(cancels := map[0 := Done]));
  }

  // ---------------------------------------------------------------- the object

  /** The two atomics, with one method per atomic operation of `run` and `cancel`; the session calls
      between them are steps of the core. */
  class Preparation {
    var cancelled: bool
    var finished: bool
    ghost var share: Share
    ghost var closed: bool
    ghost var running: RunPhase
    ghost var cancels: map<Thread, CancelPhase>

    ghost function Snapshot(): State
      reads this
    {
      State(share, cancelled, finished, closed, running, cancels)
    }

    ghost predicate Valid()
      reads this
    {
      Inv(Snapshot())
    }

    constructor ()
      ensures Valid() && Snapshot() == INITIAL
    {
      cancelled, finished, share, closed, running, cancels := false, false, Absent, false, NotStarted, map[];
    }

    /** The check before the session call. */
    method RunEnter() returns (proceed: bool)
      requires Valid() && Enabled(Snapshot(), FirstCheck)
      modifies this
      ensures Valid() && Snapshot() == old(Step(Snapshot(), FirstCheck))
      ensures proceed <==> running.Calling?
    {
      InvPreserved(Snapshot(), FirstCheck);
      proceed := !cancelled;
      running := if proceed then Calling else Returning(Cancelled);
    }

    /** The check after it. */
    method RunRecheck() returns (cancelOwn: bool)
      requires Valid() && Enabled(Snapshot(), SecondCheck)
      modifies this
      ensures Valid() && Snapshot() == old(Step(Snapshot(), SecondCheck))
      ensures cancelOwn <==> running.CancellingOwn?
    {
      InvPreserved(Snapshot(), SecondCheck);
      cancelOwn := cancelled;
      running := if cancelOwn then CancellingOwn else Returning(running.result);
    }

    /** `Finished` is dropped. */
    method RunLeave()
      requires Valid() && Enabled(Snapshot(), Finish)
      modifies this
      ensures Valid() && Snapshot() == old(Step(Snapshot(), Finish))
    {
      InvPreserved(Snapshot(), Finish);
      finished := true;
      running := Returned(running.result);
    }

    method StoreIntent(ghost t: Thread)
      requires Valid() && Enabled(Snapshot(), RequestCancel(t))
      modifies this
      ensures Valid() && Snapshot() == old(Step(Snapshot(), RequestCancel(t)))
    {
      InvPreserved(Snapshot(), RequestCancel(t));
      cancelled := true;
      cancels := cancels[t := Looping];
    }

    /** The exit test of the loop of `cancel`, after a session call that may have found it closed. */
    method LoopEnds(ghost t: Thread, sawClosed: bool) returns (done: bool)
      requires Valid() && t in cancels && cancels[t] == Checking(sawClosed)
      modifies this
      ensures Valid() && Snapshot() == old(Step(Snapshot(), CheckFinished(t)))
      ensures done <==> cancels[t].Done?
    {
      InvPreserved(Snapshot(), CheckFinished(t));
      done := finished || sawClosed;
      cancels := cancels[t := if done then Done else Looping];
    }
  }
}
