/** The lease-counting session of the Linux host (linux/src/session.rs). Any number of threads may
    call, and any number may close. */
module SessionLeases {
  import opened Common
  import DrainProtocol

  type Thread = nat

  /** A `close` between its critical sections: `core.shutdown()` runs, then the thread waits for the
      lease count to reach zero. */
  datatype CloserPhase = ShuttingDown | Waiting | Returned

  /** `leases` and `closers` are history; the source stores the other three fields. */
  datatype State = State(core: bool, closing: bool, calls: nat, leases: set<Thread>, closers: map<Thread, CloserPhase>)

  const OPENED := State(true, false, 0, {}, map[])

  datatype Action =
    | Enter(t: Thread)
    | DropLease(t: Thread)
    | BeginClose(t: Thread)
    | ShutdownDone(t: Thread)
    | FinishClose(t: Thread)

  ghost predicate Enabled(s: State, a: Action) {
    match a
    case Enter(t) => t !in s.leases && !s.closing && s.core
    case DropLease(t) => t in s.leases
    case BeginClose(t) => t !in s.closers
    case ShutdownDone(t) => t in s.closers && s.closers[t].ShuttingDown?
    case FinishClose(t) => t in s.closers && s.closers[t].Waiting? && s.calls == 0
  }

  ghost function Step(s: State, a: Action): State
    requires Enabled(s, a)
  {
    match a
    case Enter(t) => s.(calls := s.calls + 1, leases := s.leases + {t})
    case DropLease(t) => s.(calls := if s.calls > 0 then s.calls - 1 else 0, leases := s.leases - {t})
    case BeginClose(t) => s.(closing := true, closers := s.closers[t := if s.core then ShuttingDown else Waiting])
    case ShutdownDone(t) => s.(closers := s.closers[t := Waiting])
    case FinishClose(t) => s.(core := false, closers := s.closers[t := Returned])
  }

  ghost predicate Inv(s: State) {
    && s.calls == |s.leases|
    && (s.leases != {} ==> s.core)
    && (!s.core ==> s.closing)
    && (s.closers != map[] ==> s.closing)
    && forall t | t in s.closers && s.closers[t].Returned? :: !s.core
  }

  lemma InvPreserved(s: State, a: Action)
    requires Inv(s) && Enabled(s, a)
    ensures Inv(Step(s, a))
  {
  }

  ghost predicate IsRun(states: seq<State>, actions: seq<Action>) {
    && |states| == |actions| + 1 && states[0] == OPENED
    && forall i | 0 <= i < |actions| :: Enabled(states[i], actions[i]) && states[i + 1] == Step(states[i], actions[i])
  }

  lemma {:induction false} RunInv(states: seq<State>, actions: seq<Action>, i: nat)
    requires IsRun(states, actions) && i <= |actions|
    ensures Inv(states[i])
  {
    if i > 0 {
      RunInv(states, actions, i - 1);
      InvPreserved(states[i - 1], actions[i - 1]);
    }
  }

  ghost function GateOf(s: State): DrainProtocol.Gate {
    DrainProtocol.Gate(s.core, s.closing, s.calls)
  }

  /** The session refines the same drain protocol as the Windows host. */
  lemma RefinesDrainProtocol(s: State, a: Action)
    requires Inv(s) && Enabled(s, a)
    ensures DrainProtocol.Next(GateOf(s), GateOf(Step(s, a)))
  {
    if a.DropLease? {
      assert a.t in s.leases;
    }
  }

  /** In every run a live lease keeps the core, and after any close returned the core is gone, no
      lease is live and none is granted again. */
  lemma ClosedStaysDrained(states: seq<State>, actions: seq<Action>, i: nat, j: nat, t: Thread)
    requires IsRun(states, actions) && i <= j <= |actions|
    ensures states[i].leases != {} ==> states[i].core
    ensures t in states[i].closers && states[i].closers[t].Returned? ==> !states[j].core && states[j].leases == {}
    ensures t in states[i].closers && j < |actions| ==> !actions[j].Enter?
  {
    RunInv(states, actions, i);
    RunInv(states, actions, j);
    var trace := seq(|states|, k requires 0 <= k < |states| => GateOf(states[k]));
    forall k | 0 <= k < |trace| - 1 ensures DrainProtocol.Next(trace[k], trace[k + 1]) {
      RunInv(states, actions, k);
      RefinesDrainProtocol(states[k], actions[k]);
    }
    assert states[0].core;
    DrainProtocol.StopThenDrain(trace, i, j);
    DrainProtocol.StopThenDrain(trace, 0, i);
    assert trace[i] == GateOf(states[i]) && trace[j] == GateOf(states[j]) && trace[0] == GateOf(states[0]);
    CloserStays(states, actions, i, j, t);
  }

  lemma {:induction false} CloserStays(states: seq<State>, actions: seq<Action>, i: nat, j: nat, t: Thread)
    requires IsRun(states, actions) && i <= j <= |actions|
    ensures t in states[i].closers ==> t in states[j].closers
    ensures t in states[i].closers && states[i].closers[t].Returned? ==> states[j].closers[t].Returned?
  {
    if i < j {
      CloserStays(states, actions, i, j - 1, t);
      assert states[j] == Step(states[j - 1], actions[j - 1]);
    }
  }

  class Session {
    var core: bool
    var closing: bool
    var calls: nat
    ghost var leases: set<Thread>
    ghost var closers: map<Thread, CloserPhase>

    ghost function Snapshot(): State
      reads this
    {
      State(core, closing, calls, leases, closers)
    }

    ghost predicate Valid()
      reads this
    {
      Inv(Snapshot())
    }

    constructor ()
      ensures Valid() && Snapshot() == OPENED
    {
      core, closing, calls, leases, closers := true, false, 0, {}, map[];
    }

    method CallEnter(ghost t: Thread) returns (r: Result<(), string>)
      requires Valid() && t !in leases
      modifies this
      ensures Valid()
      ensures r.Ok? <==> old(Enabled(Snapshot(), Enter(t)))
      ensures r.Err? ==> r.error == if old(closing) then "linux_session_closed" else "error_starting_up"
      ensures Snapshot() == if r.Ok? then old(Step(Snapshot(), Enter(t))) else old(Snapshot())
    {
      if closing {
        return Err("linux_session_closed");
      }
      if !core {
        return Err("error_starting_up");
      }
      calls := calls + 1;
      leases := leases + {t};
      return Ok(());
    }

    method Drop(ghost t: Thread)
      requires Valid() && t in leases
      modifies this
      ensures Valid() && Snapshot() == old(Step(Snapshot(), DropLease(t)))
    {
      InvPreserved(Snapshot(), DropLease(t));
      calls := calls - 1;
      leases := leases - {t};
    }

    method CloseEnter(ghost t: Thread) returns (shutdown: bool)
      requires Valid() && t !in closers
      modifies this
      ensures Valid() && Snapshot() == old(Step(Snapshot(), BeginClose(t))) && shutdown == core
    {
      InvPreserved(Snapshot(), BeginClose(t));
      closing := true;
      shutdown := core;
      closers := closers[t := if core then ShuttingDown else Waiting];
    }

    /** The last critical section of `close`, entered when the condition variable reports no calls. */
    method CloseFinish(ghost t: Thread)
      requires Valid() && Enabled(Snapshot(), FinishClose(t))
      modifies this
      ensures Valid() && Snapshot() == old(Step(Snapshot(), FinishClose(t)))
    {
      InvPreserved(Snapshot(), FinishClose(t));
      core := false;
      closers := closers[t := Returned];
    }
  }
}
