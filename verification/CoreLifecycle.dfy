/** Initialisation, draining and disposal of the native core (windows/VniDrop.Core/CoreSession.cs).

    Every action is one critical section of the source, or one step of the native library outside
    the lock; a run interleaves the actions of any number of threads. */
module CoreLifecycle {
  import opened Common
  import DrainProtocol

  type Core = nat
  type Call = nat

  datatype CallPhase =
    | Initializing          // InitializeAsync before the native constructor returns
    | Created(core: Core)   // the constructor returned, the core is not published yet
    | Ending                // InitializeAsync before its EndCall
    | Running(core: Core)   // RunAsync: the operation holds this core

  datatype Closing =
    | NotClosing
    | Signalling(core: Core, awaited: nat)  // CloseAsync awaits the first Shutdown
    | Draining(awaited: nat)                // CloseAsync awaits the captured `drained` generation
    | Releasing(core: Core)                 // CloseAsync took the core and will dispose it
    | Closed
    | Faulted                               // the native Shutdown threw

  /** `generation` names the current `drained` source, `completed` the sources already completed.
      `calls` and the last two fields are history the source does not store. */
  datatype State = State(
    core: Option<Core>, stopping: bool, activeCalls: nat, generation: nat, completed: set<nat>, closing: Closing,
    calls: map<Call, CallPhase>, created: set<Core>, disposals: multiset<Core>)

  const INITIAL := State(None, false, 0, 0, {0}, NotClosing, map[], {}, multiset{})

  datatype Action =
    | BeginInitialize(call: Call)
    | Construct(call: Call, core: Core)
    | ConstructFails(call: Call)
    | Publish(call: Call)
    | BeginRun(call: Call)
    | EndCall(call: Call)
    | RequestStop
    | Signalled
    | SignalFails
    | TakeCore
    | Dispose
    | DisposeFails

  predicate At(s: State, call: Call, phase: CallPhase) {
    call in s.calls && s.calls[call] == phase
  }

  ghost predicate Enabled(s: State, a: Action) {
    match a
    case BeginInitialize(call) => call !in s.calls && s.core.None? && s.activeCalls == 0 && !s.stopping
    case Construct(call, core) => At(s, call, Initializing) && core !in s.created
    case ConstructFails(call) => At(s, call, Initializing)
    case Publish(call) => call in s.calls && s.calls[call].Created?
    case BeginRun(call) => call !in s.calls && s.core.Some? && !s.stopping
    case EndCall(call) => call in s.calls && (s.calls[call].Ending? || s.calls[call].Running?)
    case RequestStop => true
    case Signalled => s.closing.Signalling?
    case SignalFails => s.closing.Signalling?
    case TakeCore => s.closing.Draining? && s.closing.awaited in s.completed
    case Dispose => s.closing.Releasing?
    case DisposeFails => s.closing.Releasing?
  }

  ghost function Step(s: State, a: Action): State
    requires Enabled(s, a)
  {
    match a
    case BeginInitialize(call) =>
      s.(activeCalls := s.activeCalls + 1, generation := s.generation + 1, calls := s.calls[call := Initializing])
    case Construct(call, core) => s.(calls := s.calls[call := Created(core)], created := s.created + {core})
    case ConstructFails(call) => s.(calls := s.calls[call := Ending])
    case Publish(call) => s.(core := Some(s.calls[call].core), calls := s.calls[call := Ending])
    case BeginRun(call) =>
      s.(activeCalls := s.activeCalls + 1, calls := s.calls[call := Running(s.core.value)],
         generation := if s.activeCalls == 0 then s.generation + 1 else s.generation)
    case EndCall(call) =>
      s.(activeCalls := if s.activeCalls > 0 then s.activeCalls - 1 else 0, calls := s.calls - {call},
         completed := if s.activeCalls == 1 then s.completed + {s.generation} else s.completed)
    case RequestStop =>
      s.(stopping := true,
         closing := if !s.closing.NotClosing? then s.closing
                    else if s.core.Some? then Signalling(s.core.value, s.generation) else Draining(s.generation))
    case Signalled => s.(closing := Draining(s.closing.awaited))
    case SignalFails => s.(closing := Faulted)
    case TakeCore => s.(closing := if s.core.Some? then Releasing(s.core.value) else Closed, core := None)
    case Dispose => s.(closing := Closed, disposals := s.disposals + multiset{s.closing.core})
    case DisposeFails => s.(closing := Faulted)
  }

  // ---------------------------------------------------------------- inductive invariant

  /** Where a created core can be: owned, on its way to being owned, being released, or disposed. */
  ghost predicate Owned(s: State, c: Core) {
    s.core == Some(c) || s.closing == Releasing(c) || exists call | call in s.calls :: s.calls[call] == Created(c)
  }

  ghost predicate CallsWellFormed(s: State) {
    && s.activeCalls == |s.calls|
    && (forall call | call in s.calls && s.calls[call].Running? :: s.core == Some(s.calls[call].core))
    && (forall call | call in s.calls && (s.calls[call].Initializing? || s.calls[call].Created?) ::
          s.core.None? && s.calls.Keys == {call})
  }

  ghost predicate ClosingWellFormed(s: State) {
    && (s.stopping <==> !s.closing.NotClosing?)
    && (s.closing.Signalling? || s.closing.Draining? ==> s.closing.awaited == s.generation)
    && (s.closing.Releasing? || s.closing.Closed? ==> s.calls == map[] && s.core.None?)
  }

  ghost predicate CoresWellFormed(s: State) {
    && (forall c :: s.disposals[c] <= 1)
    && (forall c | c in s.disposals :: c in s.created && !Owned(s, c))
    && (forall c: Core | Owned(s, c) :: c in s.created)
    && (!s.closing.Faulted? ==> forall c | c in s.created :: c in s.disposals || Owned(s, c))
  }

  /** `drained` is incomplete exactly while calls are active. */
  ghost predicate DrainedIffIdle(s: State) {
    && (s.generation in s.completed <==> s.activeCalls == 0)
    && forall g | g in s.completed :: g <= s.generation
  }

  ghost predicate Inv(s: State) {
    CallsWellFormed(s) && ClosingWellFormed(s) && CoresWellFormed(s) && DrainedIffIdle(s)
  }

  lemma EndPreserved(s: State, call: Call)
    requires Inv(s) && Enabled(s, EndCall(call))
    ensures CallsWellFormed(Step(s, EndCall(call)))
  {
    assert Step(s, EndCall(call)).calls.Keys == s.calls.Keys - {call};
  }

  lemma BeginPreserved(s: State, a: Action)
    requires Inv(s) && Enabled(s, a) && (a.BeginRun? || a.BeginInitialize?)
    ensures CallsWellFormed(Step(s, a))
  {
    assert Step(s, a).calls.Keys == s.calls.Keys + {a.call};
    assert a.BeginInitialize? ==> s.calls.Keys == {};
  }

  lemma ProgressPreserved(s: State, a: Action)
    requires Inv(s) && Enabled(s, a) && (a.Construct? || a.ConstructFails? || a.Publish?)
    ensures CallsWellFormed(Step(s, a))
  {
    assert s.calls.Keys == {a.call} && Step(s, a).calls.Keys == s.calls.Keys;
  }

  lemma CallsPreserved(s: State, a: Action)
    requires Inv(s) && Enabled(s, a)
    ensures CallsWellFormed(Step(s, a))
  {
    match a {
      case EndCall(call) => EndPreserved(s, call);
      case BeginRun(_) => BeginPreserved(s, a);
      case BeginInitialize(_) => BeginPreserved(s, a);
      case TakeCore => assert s.calls == map[];
      case Construct(_, _) => ProgressPreserved(s, a);
      case ConstructFails(_) => ProgressPreserved(s, a);
      case Publish(_) => ProgressPreserved(s, a);
      case _ =>
    }
  }

  lemma ClosingPreserved(s: State, a: Action)
    requires Inv(s) && Enabled(s, a)
    ensures ClosingWellFormed(Step(s, a)) && DrainedIffIdle(Step(s, a))
  {
    if a.EndCall? {
      assert |s.calls| > 0 by { assert a.call in s.calls.Keys; }
    }
  }

  /** The cores a step hands over or gives up. */
  lemma OwnedAfter(s: State, a: Action, c: Core)
    requires Inv(s) && Enabled(s, a)
    ensures Owned(Step(s, a), c) <==>
      (Owned(s, c) && !((a.Dispose? || a.DisposeFails?) && c == s.closing.core)) || (a.Construct? && c == a.core)
  {
    var s' := Step(s, a);
    if call :| call in s.calls && s.calls[call] == Created(c) {
      assert s.calls.Keys == {call};
      assert !a.Publish? ==> At(s', call, Created(c));
    }
    if call :| call in s'.calls && s'.calls[call] == Created(c) {
      assert a.Construct? || At(s, call, Created(c));
    }
    if a.Construct? {
      assert s.calls.Keys == {a.call} && At(s', a.call, Created(a.core));
    }
  }

  lemma CoresPreserved(s: State, a: Action)
    requires Inv(s) && Enabled(s, a)
    ensures CoresWellFormed(Step(s, a))
  {
    var s' := Step(s, a);
    forall c: Core {:trigger Owned(s', c)} ensures Owned(s', c) <==>
      (Owned(s, c) && !((a.Dispose? || a.DisposeFails?) && c == s.closing.core)) || (a.Construct? && c == a.core)
    {
      OwnedAfter(s, a, c);
    }
    assert a.Dispose? ==> Owned(s, s.closing.core);
  }

  lemma InvPreserved(s: State, a: Action)
    requires Inv(s) && Enabled(s, a)
    ensures Inv(Step(s, a))
  {
    CallsPreserved(s, a);
    ClosingPreserved(s, a);
    CoresPreserved(s, a);
  }

  // ---------------------------------------------------------------- whole runs

  ghost predicate IsRun(states: seq<State>, actions: seq<Action>) {
    && |states| == |actions| + 1 && states[0] == INITIAL
    && forall i | 0 <= i < |actions| :: Enabled(states[i], actions[i]) && states[i + 1] == Step(states[i], actions[i])
  }

  lemma {:induction false} RunInv(states: seq<State>, actions: seq<Action>, i: nat)
    requires IsRun(states, actions) && i <= |actions|
    ensures Inv(states[i])
  {
    if i > 0 {
      RunInv(states, actions, i - 1);
      InvPreserved(states[i - 1], actions[i - 1]);
    }
  }

  /** Safety of every run: `drained` tells the truth, the core is taken and disposed only with no
      operation running, never twice, and a normal close leaves no created core behind. */
  lemma RunIsSafe(states: seq<State>, actions: seq<Action>, i: nat)
    requires IsRun(states, actions) && i <= |actions|
    ensures states[i].generation in states[i].completed <==> states[i].calls == map[]
    ensures forall c :: states[i].disposals[c] <= 1
    ensures forall call | call in states[i].calls && states[i].calls[call].Running? ::
      states[i].core == Some(states[i].calls[call].core) && states[i].calls[call].core !in states[i].disposals
    ensures i < |actions| && (actions[i].TakeCore? || actions[i].Dispose?) ==> states[i].calls == map[]
    ensures states[i].closing.Closed? ==> forall c :: c in states[i].created <==> states[i].disposals[c] == 1
  {
    RunInv(states, actions, i);
    assert |states[i].calls| == 0 <==> states[i].calls == map[];
    if states[i].closing.Closed? {
      forall c: Core ensures !Owned(states[i], c) {
      }
    }
  }

  lemma EndsAfter(s: State, a: Action)
    requires Enabled(s, a)
    ensures Step(s, a).closing.Faulted? <==> s.closing.Faulted? || a.SignalFails? || a.DisposeFails?
    ensures Step(s, a).closing.Closed? <==> s.closing.Closed? || a.Dispose? || (a.TakeCore? && s.core.None?)
  {
  }

  /** Closing fails exactly if the native shutdown or disposal threw, and succeeds exactly if the core was
      disposed or there was none to take. */
  lemma {:induction false} EndsIff(states: seq<State>, actions: seq<Action>, i: nat)
    requires IsRun(states, actions) && i <= |actions|
    ensures states[i].closing.Faulted? <==> exists k | 0 <= k < i :: actions[k].SignalFails? || actions[k].DisposeFails?
    ensures states[i].closing.Closed? <==>
      exists k | 0 <= k < i :: actions[k].Dispose? || (actions[k].TakeCore? && states[k].core.None?)
  {
    if i > 0 {
      EndsIff(states, actions, i - 1);
      EndsAfter(states[i - 1], actions[i - 1]);
    }
  }

  ghost function GateOf(s: State): DrainProtocol.Gate {
    DrainProtocol.Gate(s.core.Some?, s.stopping, s.activeCalls)
  }

  /** Every action is a step of the drain protocol. */
  lemma RefinesDrainProtocol(s: State, a: Action)
    requires Inv(s) && Enabled(s, a)
    ensures DrainProtocol.Next(GateOf(s), GateOf(Step(s, a)))
  {
    if a.EndCall? {
      assert a.call in s.calls.Keys;
    }
    if a.Publish? {
      assert a.call in s.calls.Keys;
    }
  }

  /** Once stopping was requested no call starts, whatever happens next. */
  lemma NoCallStartsAfterStop(states: seq<State>, actions: seq<Action>, i: nat, j: nat)
    requires IsRun(states, actions) && i < j < |actions| && actions[i].RequestStop?
    ensures !actions[j].BeginRun? && !actions[j].BeginInitialize?
  {
    var trace := seq(|states|, k requires 0 <= k < |states| => GateOf(states[k]));
    forall k | 0 <= k < |trace| - 1 ensures DrainProtocol.Next(trace[k], trace[k + 1]) {
      RunInv(states, actions, k);
      RefinesDrainProtocol(states[k], actions[k]);
    }
    DrainProtocol.StopThenDrain(trace, i + 1, j);
    assert trace[i + 1] == GateOf(states[i + 1]) && trace[j] == GateOf(states[j]);
  }

  // ---------------------------------------------------------------- closing finishes

  ghost function ClosingRank(c: Closing): nat {
    match c
    case Signalling(_, _) => 3
    case Draining(_) => 2
    case Releasing(_) => 1
    case _ => 0
  }

  ghost function InitializationRank(s: State): nat {
    if exists call | call in s.calls :: s.calls[call].Initializing? then 2
    else if exists call | call in s.calls :: s.calls[call].Created? then 1
    else 0
  }

  /** How many steps are left at most. */
  ghost function Measure(s: State): nat {
    ClosingRank(s.closing) + 3 * s.activeCalls + InitializationRank(s)
  }

  lemma InitializationAlone(s: State, call: Call)
    requires s.calls.Keys == {call}
    ensures InitializationRank(s) == if s.calls[call].Initializing? then 2 else if s.calls[call].Created? then 1 else 0
  {
    assert call in s.calls;
  }

  lemma InitializingProgress(s: State, a: Action)
    requires Inv(s) && Enabled(s, a) && (a.Construct? || a.ConstructFails? || a.Publish?)
    ensures Measure(Step(s, a)) < Measure(s)
  {
    var s' := Step(s, a);
    assert s.calls.Keys == {a.call} == s'.calls.Keys;
    InitializationAlone(s, a.call);
    InitializationAlone(s', a.call);
  }

  lemma EndingProgress(s: State, call: Call)
    requires Inv(s) && Enabled(s, EndCall(call))
    ensures Measure(Step(s, EndCall(call))) < Measure(s)
  {
    assert call in s.calls.Keys;
    assert s.activeCalls > 0;
    assert InitializationRank(Step(s, EndCall(call))) <= 2;
  }

  lemma ClosingProgress(s: State, a: Action)
    requires Inv(s) && Enabled(s, a)
    requires a.Signalled? || a.SignalFails? || a.TakeCore? || a.Dispose? || a.DisposeFails?
    ensures Measure(Step(s, a)) < Measure(s)
  {
    assert Step(s, a).calls == s.calls;
  }

  /** While stopping, every step but a repeated stop request takes at least one off the measure ... */
  lemma StoppingMakesProgress(s: State, a: Action)
    requires Inv(s) && s.stopping && Enabled(s, a)
    ensures a.RequestStop? ==> Step(s, a) == s
    ensures !a.RequestStop? ==> Measure(Step(s, a)) < Measure(s)
  {
    match a {
      case BeginInitialize(_) =>
      case BeginRun(_) =>
      case RequestStop =>
      case EndCall(call) => EndingProgress(s, call);
      case Construct(_, _) => InitializingProgress(s, a);
      case ConstructFails(_) => InitializingProgress(s, a);
      case Publish(_) => InitializingProgress(s, a);
      case _ => ClosingProgress(s, a);
    }
  }

  /** The steps other than a stop request. */
  ghost function Work(actions: seq<Action>): nat {
    if actions == [] then 0
    else Work(actions[..|actions| - 1]) + (if actions[|actions| - 1].RequestStop? then 0 else 1)
  }

  lemma {:induction false} StaysStopping(states: seq<State>, actions: seq<Action>, i: nat, j: nat)
    requires IsRun(states, actions) && i <= j <= |actions| && states[i].stopping
    ensures states[j].stopping
  {
    if i < j {
      StaysStopping(states, actions, i, j - 1);
    }
  }

  lemma WorkAppend(actions: seq<Action>, i: nat, j: nat)
    requires i <= j < |actions|
    ensures Work(actions[i..j + 1]) == Work(actions[i..j]) + (if actions[j].RequestStop? then 0 else 1)
  {
    assert actions[i..j + 1][..j - i] == actions[i..j];
  }

  lemma ProgressAt(states: seq<State>, actions: seq<Action>, j: nat)
    requires IsRun(states, actions) && j < |actions| && states[j].stopping
    ensures Measure(states[j + 1]) + (if actions[j].RequestStop? then 0 else 1) <= Measure(states[j])
  {
    RunInv(states, actions, j);
    StoppingMakesProgress(states[j], actions[j]);
  }

  /** ... so after a stop no run takes more than five steps and three for each call still active ... */
  lemma {:induction false} StepsAfterStop(states: seq<State>, actions: seq<Action>, i: nat, j: nat)
    requires IsRun(states, actions) && i <= j <= |actions| && states[i].stopping
    ensures Work(actions[i..j]) + Measure(states[j]) <= Measure(states[i]) <= 5 + 3 * states[i].activeCalls
  {
    if i < j {
      StepsAfterStop(states, actions, i, j - 1);
      StaysStopping(states, actions, i, j - 1);
      ProgressAt(states, actions, j - 1);
      WorkAppend(actions, i, j - 1);
    }
  }

  /** ... and until CloseAsync ended some step can be taken, so closing cannot hang. */
  lemma StoppingNeverStuck(s: State) returns (a: Action)
    requires Inv(s) && s.stopping && !s.closing.Closed? && !s.closing.Faulted?
    ensures Enabled(s, a) && !a.RequestStop?
  {
    match s.closing {
      case Signalling(_, _) => a := Signalled;
      case Releasing(_) => a := Dispose;
      case Draining(g) =>
        if call :| call in s.calls {
          match s.calls[call] {
            case Initializing => a := ConstructFails(call);
            case Created(_) => a := Publish(call);
            case Ending => a := EndCall(call);
            case Running(_) => a := EndCall(call);
          }
        } else {
          assert s.calls == map[];
          a := TakeCore;
        }
    }
  }

  // ---------------------------------------------------------------- the class

  class CoreSession {
    var core: Option<Core>
    var stopping: bool
    var activeCalls: nat
    var drained: nat              // the current completion source
    var completedSources: set<nat>
    var closing: Closing
    ghost var calls: map<Call, CallPhase>
    ghost var created: set<Core>
    ghost var disposals: multiset<Core>

    ghost function Snapshot(): State
      reads this
    {
      State(core, stopping, activeCalls, drained, completedSources, closing, calls, created, disposals)
    }

    ghost predicate Valid()
      reads this
    {
      Inv(Snapshot())
    }

    constructor ()
      ensures Valid() && Snapshot() == INITIAL
    {
      core, stopping, activeCalls, drained, completedSources, closing := None, false, 0, 0, {0}, NotClosing;
      calls, created, disposals := map[], {}, multiset{};
      new;
      assert forall c: Core :: !Owned(Snapshot(), c);
    }

    method InitializeEnter(ghost call: Call) returns (r: Result<(), string>)
      requires Valid() && call !in calls
      modifies this
      ensures Valid()
      ensures r.Ok? <==> old(Enabled(Snapshot(), BeginInitialize(call)))
      ensures r.Err? ==> r.error == "Core is already open."
      ensures Snapshot() == if r.Ok? then old(Step(Snapshot(), BeginInitialize(call))) else old(Snapshot())
    {
      if core.Some? || activeCalls != 0 || stopping {
        return Err("Core is already open.");
      }
      InvPreserved(Snapshot(), BeginInitialize(call));
      activeCalls := activeCalls + 1;
      drained := drained + 1;
      calls := calls[call := Initializing];
      return Ok(());
    }

    /** The native constructor returned `initialized`; the caller's call moves to its EndCall. */
    method PublishCore(initialized: Core, ghost call: Call)
      requires Valid() && At(Snapshot(), call, Created(initialized))
      modifies this
      ensures Valid() && Snapshot() == old(Step(Snapshot(), Publish(call)))
    {
      InvPreserved(Snapshot(), Publish(call));
      core := Some(initialized);
      calls := calls[call := Ending];
    }

    method RunEnter(ghost call: Call) returns (r: Result<Core, string>)
      requires Valid() && call !in calls
      modifies this
      ensures Valid()
      ensures r.Ok? <==> old(Enabled(Snapshot(), BeginRun(call)))
      ensures r.Err? ==> r.error == "Core is not available."
      ensures r.Ok? ==> At(Snapshot(), call, Running(r.value))
      ensures Snapshot() == if r.Ok? then old(Step(Snapshot(), BeginRun(call))) else old(Snapshot())
    {
      if stopping || core.None? {
        return Err("Core is not available.");
      }
      InvPreserved(Snapshot(), BeginRun(call));
      if activeCalls == 0 {
        drained := drained + 1;
      }
      activeCalls := activeCalls + 1;
      calls := calls[call := Running(core.value)];
      return Ok(core.value);
    }

    method LeaveCall(ghost call: Call)
      requires Valid() && Enabled(Snapshot(), EndCall(call))
      modifies this
      ensures Valid() && Snapshot() == old(Step(Snapshot(), EndCall(call)))
    {
      InvPreserved(Snapshot(), EndCall(call));
      assert call in calls.Keys;
      activeCalls := activeCalls - 1;
      if activeCalls == 0 {
        completedSources := completedSources + {drained};
      }
      calls := calls - {call};
    }

    /** DisposeAsync up to the first await of the CloseAsync it may start. */
    method DisposeEnter()
      requires Valid()
      modifies this
      ensures Valid() && Snapshot() == old(Step(Snapshot(), RequestStop))
    {
      InvPreserved(Snapshot(), RequestStop);
      stopping := true;
      if closing.NotClosing? {
        closing := if core.Some? then Signalling(core.value, drained) else Draining(drained);
      }
    }

    /** CloseAsync after the awaited source completed. */
    method CloseTake() returns (instance: Option<Core>)
      requires Valid() && Enabled(Snapshot(), TakeCore)
      modifies this
      ensures Valid() && Snapshot() == old(Step(Snapshot(), TakeCore))
      ensures instance == old(core) && calls == map[]
    {
      InvPreserved(Snapshot(), TakeCore);
      instance := core;
      core := None;
      closing := if instance.Some? then Releasing(instance.value) else Closed;
    }
  }
}
