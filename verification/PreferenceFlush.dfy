/** `FlushAsync` among the other threads of the tracker (windows/VniDrop.Core/PreferenceWriteTracker.cs)
    as a transition system. Each action is one critical section, the end of a task, or the end of the
    wait for the tasks a flush found pending. */
module PreferenceFlush {
  import opened Common
  import opened PreferenceWrites

  type Thread = nat

  /** What Track handed out under one version. */
  datatype Issue = Issue(task: Task, scope: Scope)

  datatype FlushPhase =
    | Looking
    | Awaiting(operations: map<Task, PendingWrite>)
    | Recording(left: map<Task, PendingWrite>)
    | Returned
    | Threw(error: string)

  /** `issued`, `done` and `abandoned` are history: what Track handed out, what counted, and the
      versions that were observed abandoned. */
  datatype State = State(
    pending: map<Task, PendingWrite>, retained: Retained, version: nat, finished: map<Task, Outcome>,
    flushes: map<Thread, FlushPhase>, issued: map<nat, Issue>, done: set<Completion>, abandoned: set<nat>)

  const INITIAL := State(map[], EMPTY, 0, map[], map[], map[], {}, {})

  datatype Action =
    | Track(task: Task, scope: Scope)
    | Resolve(scope: Scope)
    | Finish(task: Task, outcome: Outcome)
    | Observe(version: nat, abandoned: bool)           // the Complete of ObserveAsync
    | BeginFlush(t: Thread)
    | Look(t: Thread)
    | Awaited(t: Thread)
    | Record(t: Thread, task: Task, abandoned: bool)   // the Complete of FlushAsync
    | Continue(t: Thread)

  predicate InPhase(s: State, t: Thread, p: FlushPhase) {
    t in s.flushes && s.flushes[t] == p
  }

  /** `Complete` for a finished task. */
  ghost predicate Completed(s: State, task: Task, version: nat, scope: Scope, abandoned: bool, s': State) {
    && task in s.finished
    && s'.pending == s.pending - {task}
    && if abandoned then
         s'.retained == s.retained && s'.done == s.done && s'.abandoned == s.abandoned + {version}
       else
         var c := Completion(version, scope, s.finished[task]);
         Completes(s.retained, c, s'.retained) && s'.done == s.done + {c} && s'.abandoned == s.abandoned
  }

  ghost predicate IsNewestFailure(s: Retained, e: string) {
    exists f | f in s.failures :: s.failures[f].error == e
      && forall g | g in s.failures :: s.failures[g].version <= s.failures[f].version
  }

  ghost predicate Looks(s: State, p: FlushPhase) {
    if s.pending != map[] then p == Awaiting(s.pending)
    else if s.retained.failures == map[] then p == Returned
    else p.Threw? && IsNewestFailure(s.retained, p.error)
  }

  /** Nothing changes but what counted and what is pending. */
  ghost predicate SameIssues(s: State, s': State) {
    s'.version == s.version && s'.finished == s.finished && s'.issued == s.issued
  }

  ghost predicate Next(s: State, a: Action, s': State) {
    match a
    case Track(task, scope) =>
      scope != {}
      && if task in s.pending then s' == s.(version := s.version + 1)
         else s' == s.(version := s.version + 1,
                       pending := s.pending[task := PendingWrite(s.version + 1, scope)],
                       issued := s.issued[s.version + 1 := Issue(task, scope)])
    case Resolve(scope) =>
      var c := Completion(s.version + 1, scope, Success);
      scope != {} && Completes(s.retained, c, s'.retained)
      && s' == s.(version := s.version + 1, retained := s'.retained, done := s.done + {c})
    case Finish(task, outcome) => task !in s.finished && s' == s.(finished := s.finished[task := outcome])
    case Observe(version, abandoned) =>
      version in s.issued && SameIssues(s, s') && s'.flushes == s.flushes
      && Completed(s, s.issued[version].task, version, s.issued[version].scope, abandoned, s')
    case BeginFlush(t) => t !in s.flushes && s' == s.(flushes := s.flushes[t := Looking])
    case Look(t) =>
      InPhase(s, t, Looking) && t in s'.flushes && Looks(s, s'.flushes[t])
      && s' == s.(flushes := s.flushes[t := s'.flushes[t]])
    case Awaited(t) =>
      t in s.flushes && s.flushes[t].Awaiting? && s.flushes[t].operations.Keys <= s.finished.Keys
      && s' == s.(flushes := s.flushes[t := Recording(s.flushes[t].operations)])
    case Record(t, task, abandoned) =>
      t in s.flushes && s.flushes[t].Recording? && task in s.flushes[t].left && SameIssues(s, s')
      && s'.flushes == s.flushes[t := Recording(s.flushes[t].left - {task})]
      && var w := s.flushes[t].left[task]; Completed(s, task, w.version, w.scope, abandoned, s')
    case Continue(t) => InPhase(s, t, Recording(map[])) && s' == s.(flushes := s.flushes[t := Looking])
  }

  // ---------------------------------------------------------------- invariant

  /** The write was handed out under its version for this task. */
  predicate WasIssued(s: State, task: Task, w: PendingWrite) {
    w.version in s.issued && s.issued[w.version] == Issue(task, w.scope)
  }

  ghost predicate Genuine(s: State, c: Completion) {
    && c.version <= s.version
    && (c.version in s.issued ==>
          var i := s.issued[c.version]; c.scope == i.scope && i.task in s.finished && c.outcome == s.finished[i.task])
  }

  /** A version is settled once it counted or was observed abandoned. */
  ghost predicate Settled(s: State, version: nat) {
    version in s.abandoned || exists c :: c in s.done && c.version == version
  }

  ghost predicate FlushOk(s: State, p: FlushPhase) {
    && (p.Awaiting? ==> forall task | task in p.operations :: WasIssued(s, task, p.operations[task]))
    && (p.Recording? ==> forall task | task in p.left :: WasIssued(s, task, p.left[task]) && task in s.finished)
  }

  /** What counted is consistent, genuine and reflected by the dictionaries. */
  ghost predicate CountsOk(s: State) {
    Consistent(s.done) && Reflects(s.retained, s.done) && forall c | c in s.done :: Genuine(s, c)
  }

  /** What is pending or held by a flush was handed out. */
  ghost predicate IssuesOk(s: State) {
    && (forall v | v in s.issued :: v <= s.version)
    && (forall task | task in s.pending :: WasIssued(s, task, s.pending[task]))
    && (forall t | t in s.flushes :: FlushOk(s, s.flushes[t]))
  }

  ghost predicate PendingOk(s: State) {
    && (forall v | v in s.abandoned :: v <= s.version)
    && forall task | task in s.pending :: !Settled(s, s.pending[task].version)
  }

  ghost predicate Inv(s: State) {
    CountsOk(s) && IssuesOk(s) && PendingOk(s)
  }

  lemma CompletedCounts(s: State, task: Task, version: nat, scope: Scope, abandoned: bool, s': State)
    requires CountsOk(s) && SameIssues(s, s') && Completed(s, task, version, scope, abandoned, s')
    requires version in s.issued && s.issued[version] == Issue(task, scope) && version <= s.version
    ensures CountsOk(s')
  {
    if !abandoned {
      var c := Completion(version, scope, s.finished[task]);
      forall d | d in s.done && d.version == version ensures d == c {
        assert Genuine(s, d);
      }
      Counted(s.retained, s.done, c, s'.retained);
    }
    assert forall c | c in s'.done :: Genuine(s, c);
  }

  lemma CompletedPending(s: State, task: Task, version: nat, scope: Scope, abandoned: bool, s': State)
    requires IssuesOk(s) && PendingOk(s) && SameIssues(s, s') && Completed(s, task, version, scope, abandoned, s')
    requires version in s.issued && s.issued[version].task == task
    ensures PendingOk(s')
  {
    forall other | other in s'.pending ensures !Settled(s', s'.pending[other].version) {
      assert WasIssued(s, other, s.pending[other]) && !Settled(s, s.pending[other].version);
    }
  }

  /** What counted stays genuine when only new tasks end and new versions are handed out. */
  lemma CountsKeep(s: State, s': State)
    requires CountsOk(s) && s'.done == s.done && s'.retained == s.retained && s.version <= s'.version
    requires forall task | task in s.finished :: task in s'.finished && s'.finished[task] == s.finished[task]
    requires forall v | v in s'.issued && v <= s.version :: v in s.issued && s'.issued[v] == s.issued[v]
    ensures CountsOk(s')
  {
    forall c | c in s'.done ensures Genuine(s', c) {
      assert Genuine(s, c);
    }
  }

  lemma PendingKeeps(s: State, s': State)
    requires PendingOk(s) && s'.pending == s.pending && s.version <= s'.version
    requires s'.done == s.done && s'.abandoned == s.abandoned
    ensures PendingOk(s')
  {
    assert forall task | task in s.pending ::
        Settled(s', s.pending[task].version) <==> Settled(s, s.pending[task].version);
  }

  lemma TrackPending(s: State, task: Task, scope: Scope, s': State)
    requires Next(s, Track(task, scope), s') && CountsOk(s) && PendingOk(s)
    ensures PendingOk(s')
  {
    assert forall c | c in s.done :: Genuine(s, c);
    assert !Settled(s, s.version + 1);
    assert forall v: nat :: Settled(s', v) <==> Settled(s, v);
  }

  lemma ResolvePending(s: State, scope: Scope, s': State)
    requires Next(s, Resolve(scope), s') && IssuesOk(s) && PendingOk(s)
    ensures PendingOk(s')
  {
    forall task | task in s'.pending ensures !Settled(s', s'.pending[task].version) {
      assert WasIssued(s, task, s.pending[task]) && !Settled(s, s.pending[task].version);
    }
  }

  lemma TrackIssues(s: State, task: Task, scope: Scope, s': State)
    requires Next(s, Track(task, scope), s') && IssuesOk(s)
    ensures IssuesOk(s')
  {
  }

  lemma ResolveCounts(s: State, scope: Scope, s': State)
    requires CountsOk(s) && IssuesOk(s) && Next(s, Resolve(scope), s')
    ensures CountsOk(s')
  {
    var c := Completion(s.version + 1, scope, Success);
    assert forall d | d in s.done :: Genuine(s, d);
    Counted(s.retained, s.done, c, s'.retained);
  }

  /** Moving a flush from phase to phase keeps what it holds. */
  lemma FlushIssues(s: State, a: Action, s': State)
    requires IssuesOk(s) && Next(s, a, s') && (a.BeginFlush? || a.Look? || a.Awaited? || a.Continue?)
    ensures IssuesOk(s')
  {
    assert forall t | t in s.flushes :: FlushOk(s, s.flushes[t]);
  }

  lemma RecordIssues(s: State, t: Thread, task: Task, abandoned: bool, s': State)
    requires IssuesOk(s) && Next(s, Record(t, task, abandoned), s')
    ensures IssuesOk(s') && WasIssued(s, task, s.flushes[t].left[task])
  {
    assert forall u | u in s.flushes :: FlushOk(s, s.flushes[u]);
  }

  lemma ObserveKeeps(s: State, v: nat, abandoned: bool, s': State)
    requires Inv(s) && Next(s, Observe(v, abandoned), s')
    ensures Inv(s')
  {
    CompletedCounts(s, s.issued[v].task, v, s.issued[v].scope, abandoned, s');
    CompletedPending(s, s.issued[v].task, v, s.issued[v].scope, abandoned, s');
  }

  lemma RecordKeeps(s: State, t: Thread, task: Task, abandoned: bool, s': State)
    requires Inv(s) && Next(s, Record(t, task, abandoned), s')
    ensures Inv(s')
  {
    RecordIssues(s, t, task, abandoned, s');
    var w := s.flushes[t].left[task];
    CompletedCounts(s, task, w.version, w.scope, abandoned, s');
    CompletedPending(s, task, w.version, w.scope, abandoned, s');
  }

  lemma FlushKeeps(s: State, a: Action, s': State)
    requires Inv(s) && Next(s, a, s') && (a.BeginFlush? || a.Look? || a.Awaited? || a.Continue?)
    ensures Inv(s')
  {
    CountsKeep(s, s');
    FlushIssues(s, a, s');
    PendingKeeps(s, s');
  }

  lemma InvPreserved(s: State, a: Action, s': State)
    requires Inv(s) && Next(s, a, s')
    ensures Inv(s')
  {
    match a {
      case Track(task, scope) =>
        CountsKeep(s, s');
        TrackIssues(s, task, scope, s');
        TrackPending(s, task, scope, s');
      case Resolve(scope) =>
        ResolveCounts(s, scope, s');
        ResolvePending(s, scope, s');
      case Finish(_, _) =>
        CountsKeep(s, s');
        PendingKeeps(s, s');
      case Observe(v, abandoned) => ObserveKeeps(s, v, abandoned, s');
      case Record(t, task, abandoned) => RecordKeeps(s, t, task, abandoned, s');
      case _ => FlushKeeps(s, a, s');
    }
  }

  // ---------------------------------------------------------------- whole runs

  ghost predicate StepAt(states: seq<State>, actions: seq<Action>, i: nat) {
    i < |actions| < |states| && Next(states[i], actions[i], states[i + 1])
  }

  ghost predicate IsRun(states: seq<State>, actions: seq<Action>) {
    |states| == |actions| + 1 && states[0] == INITIAL && forall i: nat | i < |actions| :: StepAt(states, actions, i)
  }

  lemma InitialOk()
    ensures Inv(INITIAL)
  {
    forall f: Field ensures SlotReflects(SlotOf(EMPTY, f), {}, f) {
    }
  }

  lemma {:induction false} RunInv(states: seq<State>, actions: seq<Action>, i: nat)
    requires IsRun(states, actions) && i <= |actions|
    ensures Inv(states[i])
  {
    if i == 0 {
      InitialOk();
    } else {
      RunInv(states, actions, i - 1);
      assert StepAt(states, actions, i - 1);
      InvPreserved(states[i - 1], actions[i - 1], states[i]);
    }
  }

  predicate UsesVersion(a: Action) {
    a.Track? || a.Resolve?
  }

  function Used(actions: seq<Action>): nat {
    if actions == [] then 0
    else Used(actions[..|actions| - 1]) + if UsesVersion(actions[|actions| - 1]) then 1 else 0
  }

  /** Every tracked or resolved write takes a version of its own, also when its task is already pending. */
  lemma {:induction false} VersionsAreCounted(states: seq<State>, actions: seq<Action>, i: nat)
    requires IsRun(states, actions) && i <= |actions|
    ensures states[i].version == Used(actions[..i])
  {
    if i > 0 {
      VersionsAreCounted(states, actions, i - 1);
      assert StepAt(states, actions, i - 1);
      assert actions[..i][..i - 1] == actions[..i - 1];
      VersionAfter(states[i - 1], actions[i - 1], states[i]);
    }
  }

  lemma VersionAfter(s: State, a: Action, s': State)
    requires Next(s, a, s')
    ensures s'.version == s.version + if UsesVersion(a) then 1 else 0
  {
  }

  // ---------------------------------------------------------------- one round of a flush

  ghost predicate RecordsAt(actions: seq<Action>, k: int, t: Thread, task: Task) {
    0 <= k < |actions| && actions[k].Record? && actions[k].t == t && actions[k].task == task
  }

  /** The round that began recording at step j is still under way at step i. */
  ghost predicate InRound(states: seq<State>, actions: seq<Action>, j: nat, i: nat, t: Thread) {
    && j < i <= |actions| < |states| && actions[j] == Awaited(t)
    && forall k | j < k < i :: actions[k] != Continue(t)
  }

  lemma RoundAfter(s: State, a: Action, s': State, t: Thread)
    requires Next(s, a, s') && t in s.flushes && s.flushes[t].Recording? && a != Continue(t)
    ensures t in s'.flushes && s'.flushes[t].Recording?
    ensures s'.flushes[t].left == if a.Record? && a.t == t then s.flushes[t].left - {a.task} else s.flushes[t].left
  {
  }

  lemma {:induction false} RoundLeft(states: seq<State>, actions: seq<Action>, j: nat, i: nat, t: Thread)
    requires IsRun(states, actions) && InRound(states, actions, j, i, t)
    ensures t in states[j].flushes && states[j].flushes[t].Awaiting?
    ensures t in states[i].flushes && states[i].flushes[t].Recording?
    ensures forall task | task in states[j].flushes[t].operations ::
      task in states[i].flushes[t].left || exists k :: j < k < i && RecordsAt(actions, k, t, task)
  {
    assert StepAt(states, actions, i - 1);
    if j < i - 1 {
      RoundLeft(states, actions, j, i - 1, t);
      RoundAfter(states[i - 1], actions[i - 1], states[i], t);
      forall task | task in states[j].flushes[t].operations
        ensures task in states[i].flushes[t].left || exists k :: j < k < i && RecordsAt(actions, k, t, task)
      {
        if k :| j < k < i - 1 && RecordsAt(actions, k, t, task) {
        } else if actions[i - 1].Record? && actions[i - 1].t == t && actions[i - 1].task == task {
          assert RecordsAt(actions, i - 1, t, task);
        }
      }
    }
  }

  /** A flush looks again only after it recorded every write it had found pending. */
  lemma RoundRecordsAll(states: seq<State>, actions: seq<Action>, j: nat, i: nat, t: Thread)
    requires IsRun(states, actions) && InRound(states, actions, j, i, t) && i < |actions| && actions[i] == Continue(t)
    ensures t in states[j].flushes && states[j].flushes[t].Awaiting?
    ensures forall task | task in states[j].flushes[t].operations ::
      exists k :: j < k < i && RecordsAt(actions, k, t, task)
  {
    RoundLeft(states, actions, j, i, t);
    assert StepAt(states, actions, i);
  }

  // ---------------------------------------------------------------- which writes a flush waits for

  /** The task and version an action completes, if any. */
  ghost function Completing(s: State, a: Action): Option<(Task, nat)> {
    match a
    case Observe(v, _) => if v in s.issued then Some((s.issued[v].task, v)) else None
    case Record(t, task, _) =>
      if t in s.flushes && s.flushes[t].Recording? && task in s.flushes[t].left then
        Some((task, s.flushes[t].left[task].version))
      else None
    case _ => None
  }

  ghost predicate CompletesVersion(s: State, a: Action, v: nat) {
    Completing(s, a).Some? && Completing(s, a).value.1 == v
  }

  ghost predicate IsPending(s: State, v: nat) {
    v in s.issued && s.issued[v].task in s.pending && s.pending[s.issued[v].task].version == v
  }

  /** The pending entry of v is removed by completing another version of its task. */
  ghost predicate Steals(s: State, a: Action, v: nat) {
    IsPending(s, v) && Completing(s, a).Some? && Completing(s, a).value.0 == s.issued[v].task
    && Completing(s, a).value.1 != v
  }

  /** A tracked write that neither counted nor was observed abandoned, and that no flush will find. */
  ghost predicate Lost(s: State, v: nat) {
    !Settled(s, v) && !IsPending(s, v)
  }

  /** What a completed version settles: itself and nothing else. */
  lemma SettledAfter(s: State, a: Action, s': State, v: nat)
    requires Inv(s) && Next(s, a, s') && v in s.issued
    ensures Settled(s', v) <==> Settled(s, v) || CompletesVersion(s, a, v)
  {
    if CompletesVersion(s, a, v) {
      var (task, u) := Completing(s, a).value;
      if v !in s'.abandoned {
        assert exists c :: c in s'.done && c.version == v;
      }
    }
  }

  lemma PendingAfter(s: State, a: Action, s': State, v: nat)
    requires Inv(s) && Next(s, a, s') && v in s.issued
    ensures v in s'.issued && s'.issued[v] == s.issued[v]
    ensures IsPending(s', v) <==>
      IsPending(s, v) && !(Completing(s, a).Some? && Completing(s, a).value.0 == s.issued[v].task)
  {
  }

  lemma LostAfter(s: State, a: Action, s': State, v: nat)
    requires Inv(s) && Next(s, a, s') && v in s.issued
    ensures Lost(s', v) <==> Steals(s, a, v) || (Lost(s, v) && !CompletesVersion(s, a, v))
  {
    SettledAfter(s, a, s', v);
    PendingAfter(s, a, s', v);
    assert IsPending(s, v) ==> !Settled(s, v);
  }

  ghost predicate StolenSince(states: seq<State>, actions: seq<Action>, k: nat, i: nat, v: nat) {
    && k < i <= |actions| < |states| && Steals(states[k], actions[k], v)
    && forall m | k < m < i :: !CompletesVersion(states[m], actions[m], v)
  }

  lemma {:induction false} IssuedStays(states: seq<State>, actions: seq<Action>, k: nat, i: nat, v: nat)
    requires IsRun(states, actions) && k <= i <= |actions| && v in states[k].issued
    ensures v in states[i].issued && states[i].issued[v] == states[k].issued[v]
  {
    if k < i {
      IssuedStays(states, actions, k, i - 1, v);
      RunInv(states, actions, i - 1);
      assert StepAt(states, actions, i - 1);
      PendingAfter(states[i - 1], actions[i - 1], states[i], v);
    }
  }

  lemma StolenAppend(states: seq<State>, actions: seq<Action>, k: nat, i: nat, v: nat)
    requires k < i < |actions| < |states|
    ensures StolenSince(states, actions, k, i + 1, v) <==>
      StolenSince(states, actions, k, i, v) && !CompletesVersion(states[i], actions[i], v)
  {
  }

  /** A tracked write is lost exactly if its pending entry was removed by completing another version of
      its task, and its own completion is still to come. */
  lemma {:induction false} LostIff(states: seq<State>, actions: seq<Action>, i: nat, v: nat)
    requires IsRun(states, actions) && i <= |actions| && v in states[i].issued
    ensures Lost(states[i], v) <==> exists k: nat :: StolenSince(states, actions, k, i, v)
  {
    if i > 0 {
      var n := i - 1;
      assert StepAt(states, actions, n);
      RunInv(states, actions, n);
      if v in states[n].issued {
        LostIff(states, actions, n, v);
        LostAfter(states[n], actions[n], states[i], v);
        forall k: nat | k < n
          ensures StolenSince(states, actions, k, i, v) <==>
            StolenSince(states, actions, k, n, v) && !CompletesVersion(states[n], actions[n], v)
        {
          StolenAppend(states, actions, k, n, v);
        }
        assert StolenSince(states, actions, n, i, v) <==> Steals(states[n], actions[n], v);
      } else {
        IssuedNow(states[n], actions[n], states[i], v);
        forall k: nat ensures !StolenSince(states, actions, k, i, v) {
          if StolenSince(states, actions, k, i, v) {
            IssuedStays(states, actions, k, n, v);
            assert false;
          }
        }
      }
    }
  }

  lemma IssuedNow(s: State, a: Action, s': State, v: nat)
    requires Next(s, a, s') && v !in s.issued && v in s'.issued
    ensures IsPending(s', v)
  {
  }

  /** In every interleaving a flush returns only at a point where nothing is pending and no counted
      failure is outstanding; and a tracked write has counted or was abandoned by then, exactly unless
      completing another version of its task removed its pending entry and its own completion is still
      to come. */
  lemma ReturnsOnlyWhenSettled(states: seq<State>, actions: seq<Action>, i: nat, t: Thread)
    requires IsRun(states, actions) && i < |actions| && actions[i] == Look(t) && InPhase(states[i + 1], t, Returned)
    ensures states[i].pending == map[] && states[i].retained.failures == map[]
    ensures forall c, f :: !Outstanding(c, states[i].done, f)
    ensures forall v | v in states[i].issued ::
      Settled(states[i], v) <==> !exists k: nat :: StolenSince(states, actions, k, i, v)
  {
    var s := states[i];
    assert StepAt(states, actions, i);
    RunInv(states, actions, i);
    NewestRetained(s.retained, s.done, None);
    forall v | v in s.issued
      ensures Settled(s, v) <==> !exists k: nat :: StolenSince(states, actions, k, i, v)
    {
      LostIff(states, actions, i, v);
    }
  }

  lemma CompletingIsIssued(s: State, a: Action)
    requires Inv(s) && Completing(s, a).Some?
    ensures var (task, u) := Completing(s, a).value; u in s.issued && s.issued[u].task == task
  {
    if a.Record? {
      assert FlushOk(s, s.flushes[a.t]);
    }
  }

  lemma StolenSharesTask(states: seq<State>, actions: seq<Action>, k: nat, i: nat, v: nat)
    requires IsRun(states, actions) && i <= |actions| && v in states[i].issued
    requires StolenSince(states, actions, k, i, v)
    ensures exists u :: u in states[i].issued && u != v && states[i].issued[u].task == states[i].issued[v].task
  {
    RunInv(states, actions, k);
    CompletingIsIssued(states[k], actions[k]);
    var u := Completing(states[k], actions[k]).value.1;
    IssuedStays(states, actions, k, i, u);
    IssuedStays(states, actions, k, i, v);
    assert u in states[i].issued;
  }

  /** Where every task is tracked under one version only, as the callers do, a flush that returns leaves
      no tracked write behind that neither counted nor was abandoned. */
  lemma ReturnsWhenAllSettled(states: seq<State>, actions: seq<Action>, i: nat, t: Thread)
    requires IsRun(states, actions) && i < |actions| && actions[i] == Look(t) && InPhase(states[i + 1], t, Returned)
    requires forall u, v | u in states[i].issued && v in states[i].issued ::
      states[i].issued[u].task == states[i].issued[v].task ==> u == v
    ensures forall v | v in states[i].issued :: Settled(states[i], v)
  {
    ReturnsOnlyWhenSettled(states, actions, i, t);
    forall v | v in states[i].issued ensures Settled(states[i], v) {
      if k: nat :| StolenSince(states, actions, k, i, v) {
        StolenSharesTask(states, actions, k, i, v);
        assert false;
      }
    }
  }

  /** It throws only when nothing is pending, and then an outstanding failure of the highest version. */
  lemma ThrowsNewestFailure(states: seq<State>, actions: seq<Action>, i: nat, t: Thread)
    requires IsRun(states, actions) && i < |actions| && actions[i] == Look(t)
    requires t in states[i + 1].flushes && states[i + 1].flushes[t].Threw?
    ensures states[i].pending == map[]
    ensures exists c, f ::
      && Outstanding(c, states[i].done, f) && c.outcome.error == states[i + 1].flushes[t].error
      && forall d, g :: Outstanding(d, states[i].done, g) ==> d.version <= c.version
  {
    var s := states[i];
    RunInv(states, actions, i);
    assert StepAt(states, actions, i);
    var f :| f in s.retained.failures && s.retained.failures[f].error == states[i + 1].flushes[t].error
      && forall g | g in s.retained.failures :: s.retained.failures[g].version <= s.retained.failures[f].version;
    NewestRetained(s.retained, s.done, Some(s.retained.failures[f]));
  }

  // ---------------------------------------------------------------- an instance

  lemma Extend(states: seq<State>, actions: seq<Action>, a: Action, next: State)
    returns (states': seq<State>, actions': seq<Action>)
    requires IsRun(states, actions) && Next(states[|actions|], a, next)
    ensures IsRun(states', actions') && states'[|actions'|] == next
    ensures actions' == actions + [a] && states' == states + [next]
  {
    states', actions' := states + [next], actions + [a];
    forall i: nat | i < |actions'| ensures StepAt(states', actions', i) {
      assert i < |actions| ==> StepAt(states, actions, i);
    }
  }

  const WRITE := PendingWrite(1, {Theme})
  const FAILED := Completion(1, {Theme}, Failure("e"))

  /** A flush has found task 0 pending under version 1, the task failed, and the failure counted. */
  const COUNTED := State(
    map[], Retained(map[], map[Theme := RetainedFailure(1, "e")]), 1, map[0 := Failure("e")],
    map[0 := Recording(map[0 := WRITE])], map[1 := Issue(0, {Theme})], {FAILED}, {})

  lemma ReachCounted() returns (states: seq<State>, actions: seq<Action>)
    ensures IsRun(states, actions) && states[|actions|] == COUNTED
  {
    states, actions := [INITIAL], [];
    var s := INITIAL.(version := 1, pending := map[0 := WRITE], issued := map[1 := Issue(0, {Theme})]);
    states, actions := Extend(states, actions, Track(0, {Theme}), s);
    s := s.(flushes := map[0 := Looking]);
    states, actions := Extend(states, actions, BeginFlush(0), s);
    s := s.(flushes := map[0 := Awaiting(map[0 := WRITE])]);
    states, actions := Extend(states, actions, Look(0), s);
    s := s.(finished := map[0 := Failure("e")]);
    states, actions := Extend(states, actions, Finish(0, Failure("e")), s);
    s := s.(flushes := map[0 := Recording(map[0 := WRITE])]);
    states, actions := Extend(states, actions, Awaited(0), s);
    states, actions := Extend(states, actions, Observe(1, false), COUNTED);
  }

  /** A newer success cleared the failure, and the task was tracked again. */
  const RETRACKED := COUNTED.(
    version := 3, retained := Retained(map[Theme := 2], map[]), done := {FAILED, Completion(2, {Theme}, Success)},
    pending := map[0 := PendingWrite(3, {Theme})], issued := map[1 := Issue(0, {Theme}), 3 := Issue(0, {Theme})])

  lemma ReachRetracked() returns (states: seq<State>, actions: seq<Action>)
    ensures IsRun(states, actions) && states[|actions|] == RETRACKED
  {
    states, actions := ReachCounted();
    var s := COUNTED.(version := 2, retained := RETRACKED.retained, done := RETRACKED.done);
    states, actions := Extend(states, actions, Resolve({Theme}), s);
    states, actions := Extend(states, actions, Track(0, {Theme}), RETRACKED);
  }

  const LOOKING := RETRACKED.(pending := map[], flushes := map[0 := Looking])

  lemma ReachLooking() returns (states: seq<State>, actions: seq<Action>)
    ensures IsRun(states, actions) && states[|actions|] == LOOKING
  {
    states, actions := ReachRetracked();
    assert map[0 := WRITE] - {0} == map[];
    var s := LOOKING.(flushes := map[0 := Recording(map[])]);
    states, actions := Extend(states, actions, Record(0, 0, false), s);
    states, actions := Extend(states, actions, Continue(0), LOOKING);
  }

  /** A task tracked again while a flush records it: the older version takes the newer one out of
      `pending`, and the flush returns before the newer failure counted. */
  lemma TrackedTwice() returns (states: seq<State>, actions: seq<Action>, i: nat)
    ensures IsRun(states, actions) && i < |actions| && actions[i] == Look(0) && InPhase(states[i + 1], 0, Returned)
    ensures 3 in states[i].issued && !Settled(states[i], 3)
  {
    states, actions := ReachLooking();
    i := |actions|;
    states, actions := Extend(states, actions, Look(0), LOOKING.(flushes := map[0 := Returned]));
  }
}
