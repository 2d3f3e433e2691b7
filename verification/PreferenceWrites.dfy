/** Versioned preference writes that complete in any order
    (windows/VniDrop.Core/PreferenceWriteTracker.cs). */
module PreferenceWrites {
  import opened Common

  datatype Field = Username | ReceiveDirectory | Theme | Notifications | RelayMode | RelayUrls | DiagnosticsInstallId

  /** A scope is the set of its flags; the empty set is PreferenceWriteScope.None. */
  type Scope = set<Field>
  type Task = nat

  const FIELDS: seq<Field> :=
    [Username, ReceiveDirectory, Theme, Notifications, RelayMode, RelayUrls, DiagnosticsInstallId]

  datatype Outcome = Success | Failure(error: string)
  datatype Status = Running | Completed(outcome: Outcome)

  datatype PendingWrite = PendingWrite(version: nat, scope: Scope)
  datatype RetainedFailure = RetainedFailure(version: nat, error: string)

  /** The two dictionaries the tracker reports from. */
  datatype Retained = Retained(latest: map<Field, nat>, failures: map<Field, RetainedFailure>)

  /** A completion that counted: not abandoned, with the outcome of its task. Resolving a scope
      counts as a success of every field in it. */
  datatype Completion = Completion(version: nat, scope: Scope, outcome: Outcome)

  const EMPTY := Retained(map[], map[])

  // ---------------------------------------------------------------- order-free specification

  ghost predicate Consistent(done: set<Completion>) {
    forall a, b | a in done && b in done && a.version == b.version :: a == b
  }

  ghost predicate Succeeds(c: Completion, f: Field) {
    f in c.scope && c.outcome.Success?
  }

  ghost predicate Fails(c: Completion, f: Field) {
    f in c.scope && c.outcome.Failure?
  }

  /** What the two dictionaries hold for one field. */
  datatype Slot = Slot(latest: Option<nat>, failure: Option<RetainedFailure>)

  function SlotOf(s: Retained, f: Field): Slot {
    Slot(if f in s.latest then Some(s.latest[f]) else None,
         if f in s.failures then Some(s.failures[f]) else None)
  }

  /** The newest success of f. */
  ghost predicate LatestIs(latest: Option<nat>, done: set<Completion>, f: Field) {
    && (latest.Some? ==> exists c | c in done :: Succeeds(c, f) && c.version == latest.value)
    && (forall c | c in done && Succeeds(c, f) :: latest.Some? && c.version <= latest.value)
  }

  /** c is the newest failure of f and newer than every success of f. */
  ghost predicate Outstanding(c: Completion, done: set<Completion>, f: Field) {
    && c in done && Fails(c, f)
    && forall d | d in done && f in d.scope :: d.version <= c.version
  }

  ghost predicate FailureIs(failure: Option<RetainedFailure>, done: set<Completion>, f: Field) {
    && (failure.Some? ==> exists c | c in done ::
          Outstanding(c, done, f) && failure.value == RetainedFailure(c.version, c.outcome.error))
    && (forall c | c in done && Outstanding(c, done, f) :: failure.Some?)
  }

  ghost predicate SlotReflects(slot: Slot, done: set<Completion>, f: Field) {
    LatestIs(slot.latest, done, f) && FailureIs(slot.failure, done, f)
  }

  ghost predicate Reflects(s: Retained, done: set<Completion>) {
    forall f: Field :: SlotReflects(SlotOf(s, f), done, f)
  }

  /** The retained state is determined by the set of completions. */
  lemma ReflectsUnique(s: Retained, t: Retained, done: set<Completion>)
    requires Consistent(done) && Reflects(s, done) && Reflects(t, done)
    ensures s == t
  {
    forall f: Field ensures SlotOf(s, f) == SlotOf(t, f) {
      assert SlotReflects(SlotOf(s, f), done, f) && SlotReflects(SlotOf(t, f), done, f);
    }
    SameSlots(s, t);
  }

  lemma SameSlots(s: Retained, t: Retained)
    requires forall f: Field :: SlotOf(s, f) == SlotOf(t, f)
    ensures s == t
  {
    forall f: Field
      ensures f in s.latest <==> f in t.latest
      ensures f in s.latest ==> s.latest[f] == t.latest[f]
      ensures f in s.failures <==> f in t.failures
      ensures f in s.failures ==> s.failures[f] == t.failures[f]
    {
      assert SlotOf(s, f) == SlotOf(t, f);
    }
    assert s.latest == t.latest && s.failures == t.failures;
  }

  // ---------------------------------------------------------------- one completion

  function CompleteSlot(slot: Slot, version: nat, outcome: Outcome): Slot {
    match outcome
    case Success =>
      Slot(
        if slot.latest.None? || version > slot.latest.value then Some(version) else slot.latest,
        if slot.failure.Some? && version >= slot.failure.value.version then None else slot.failure)
    case Failure(error) =>
      if slot.latest.Some? && version <= slot.latest.value then slot
      else if slot.failure.None? || version >= slot.failure.value.version then
        slot.(failure := Some(RetainedFailure(version, error)))
      else slot
  }

  lemma SuccessReflects(slot: Slot, done: set<Completion>, c: Completion, f: Field)
    requires Consistent(done + {c}) && SlotReflects(slot, done, f) && Succeeds(c, f)
    ensures SlotReflects(CompleteSlot(slot, c.version, c.outcome), done + {c}, f)
  {
    var all, slot' := done + {c}, CompleteSlot(slot, c.version, c.outcome);
    assert c in all && LatestIs(slot'.latest, all, f);
    if slot'.failure.Some? {
      var w :| w in done && Outstanding(w, done, f)
        && slot.failure.value == RetainedFailure(w.version, w.outcome.error);
      assert w in all && Outstanding(w, all, f);
    }
    forall w | w in all && Outstanding(w, all, f) ensures slot'.failure.Some? {
      assert c.version <= w.version && w in done && Outstanding(w, done, f);
    }
  }

  lemma FailureReflects(slot: Slot, done: set<Completion>, c: Completion, f: Field)
    requires Consistent(done + {c}) && SlotReflects(slot, done, f) && Fails(c, f)
    ensures SlotReflects(CompleteSlot(slot, c.version, c.outcome), done + {c}, f)
  {
    var all, slot' := done + {c}, CompleteSlot(slot, c.version, c.outcome);
    assert c in all && LatestIs(slot'.latest, all, f);
    if slot.latest.Some? && c.version <= slot.latest.value {
      var w :| w in done && Succeeds(w, f) && w.version == slot.latest.value;
      assert w in all && w.version != c.version;
      IgnoredFailure(slot, done, c, f);
    } else if slot.failure.Some? && c.version < slot.failure.value.version {
      IgnoredFailure(slot, done, c, f);
    } else {
      forall d | d in done && f in d.scope ensures d.version <= c.version {
        FieldCovered(slot, done, d, f);
      }
      assert Outstanding(c, all, f);
    }
  }

  lemma IgnoredFailure(slot: Slot, done: set<Completion>, c: Completion, f: Field)
    requires Consistent(done + {c}) && FailureIs(slot.failure, done, f) && Fails(c, f)
    requires exists w | w in done && f in w.scope :: c.version < w.version
    ensures FailureIs(slot.failure, done + {c}, f)
  {
    var all := done + {c};
    if slot.failure.Some? {
      var w :| w in done && Outstanding(w, done, f)
        && slot.failure.value == RetainedFailure(w.version, w.outcome.error);
      assert w in all && Outstanding(w, all, f);
    }
    forall w | w in all && Outstanding(w, all, f) ensures slot.failure.Some? {
      assert w in done ==> Outstanding(w, done, f);
    }
  }

  /** Every completion of f is at most its newest success or its retained failure. */
  lemma FieldCovered(slot: Slot, done: set<Completion>, d: Completion, f: Field)
    requires Consistent(done) && SlotReflects(slot, done, f) && d in done && f in d.scope
    ensures (slot.latest.Some? && d.version <= slot.latest.value)
         || (slot.failure.Some? && d.version <= slot.failure.value.version)
  {
    var top := Newest(done, d, f);
    if top.outcome.Failure? {
      assert Outstanding(top, done, f);
      var w :| w in done && Outstanding(w, done, f)
        && slot.failure.value == RetainedFailure(w.version, w.outcome.error);
    }
  }

  lemma {:induction false} Newest(done: set<Completion>, d: Completion, f: Field) returns (top: Completion)
    requires d in done && f in d.scope
    ensures top in done && f in top.scope
    ensures forall e | e in done && f in e.scope :: e.version <= top.version
  {
    top := d;
    if e :| e in done - {d} && f in e.scope {
      var other := Newest(done - {d}, e, f);
      top := if d.version > other.version then d else other;
    }
  }

  lemma SlotCompletes(slot: Slot, done: set<Completion>, c: Completion, f: Field)
    requires Consistent(done + {c}) && SlotReflects(slot, done, f)
    ensures SlotReflects(if f in c.scope then CompleteSlot(slot, c.version, c.outcome) else slot, done + {c}, f)
  {
    if f in c.scope {
      if c.outcome.Success? { SuccessReflects(slot, done, c, f); } else { FailureReflects(slot, done, c, f); }
    } else {
      UntouchedField(slot, done, c, f);
    }
  }

  lemma UntouchedField(slot: Slot, done: set<Completion>, c: Completion, f: Field)
    requires SlotReflects(slot, done, f) && f !in c.scope
    ensures SlotReflects(slot, done + {c}, f)
  {
    forall w ensures w in done + {c} && Outstanding(w, done + {c}, f) <==> w in done && Outstanding(w, done, f) {
    }
    if slot.failure.Some? {
      var w :| w in done && Outstanding(w, done, f)
        && slot.failure.value == RetainedFailure(w.version, w.outcome.error);
      assert w in done + {c} && Outstanding(w, done + {c}, f);
    }
  }

  /** `t` is `s` after the whole completion c. */
  ghost predicate Completes(s: Retained, c: Completion, t: Retained) {
    forall f: Field ::
      SlotOf(t, f) == if f in c.scope then CompleteSlot(SlotOf(s, f), c.version, c.outcome) else SlotOf(s, f)
  }

  lemma CompleteReflects(s: Retained, done: set<Completion>, c: Completion, t: Retained)
    requires Consistent(done + {c}) && Reflects(s, done) && Completes(s, c, t)
    ensures Reflects(t, done + {c})
  {
    forall f: Field ensures SlotReflects(SlotOf(t, f), done + {c}, f) {
      SlotCompletes(SlotOf(s, f), done, c, f);
    }
  }

  /** Observing a completion a second time is a no-op. */
  lemma RepeatedCompletionIsNoOp(s: Retained, done: set<Completion>, c: Completion, t: Retained)
    requires Consistent(done) && Reflects(s, done) && c in done && Completes(s, c, t)
    ensures t == s
  {
    assert done + {c} == done;
    CompleteReflects(s, done, c, t);
    ReflectsUnique(s, t, done);
  }

  /** What one more observation of a version does to a consistent record. */
  lemma Counted(s: Retained, done: set<Completion>, c: Completion, t: Retained)
    requires Consistent(done) && Reflects(s, done) && Completes(s, c, t)
    requires forall d | d in done && d.version == c.version :: d == c
    ensures Consistent(done + {c}) && Reflects(t, done + {c})
    ensures c in done ==> t == s
  {
    CompleteReflects(s, done, c, t);
    if c in done {
      RepeatedCompletionIsNoOp(s, done, c, t);
    }
  }

  // ---------------------------------------------------------------- any order

  /** `states` is a run of completions from the empty state. */
  ghost predicate IsRun(run: seq<Completion>, states: seq<Retained>) {
    && |states| == |run| + 1 && states[0] == EMPTY
    && forall i | 0 <= i < |run| :: Completes(states[i], run[i], states[i + 1])
  }

  ghost function Done(run: seq<Completion>): set<Completion> {
    set c | c in run
  }

  lemma {:induction false} RunReflects(run: seq<Completion>, states: seq<Retained>, n: nat)
    requires IsRun(run, states) && Consistent(Done(run)) && n <= |run|
    ensures Reflects(states[n], Done(run[..n]))
  {
    if n == 0 {
      forall f: Field ensures SlotReflects(SlotOf(EMPTY, f), {}, f) {
      }
    } else {
      RunReflects(run, states, n - 1);
      assert Done(run[..n]) == Done(run[..n - 1]) + {run[n - 1]} <= Done(run);
      CompleteReflects(states[n - 1], Done(run[..n - 1]), run[n - 1], states[n]);
    }
  }

  /** Order and repetition of completions cannot show in the retained state. */
  lemma AnyOrderSameState(run1: seq<Completion>, states1: seq<Retained>, run2: seq<Completion>, states2: seq<Retained>)
    requires IsRun(run1, states1) && IsRun(run2, states2)
    requires Done(run1) == Done(run2) && Consistent(Done(run1))
    ensures states1[|run1|] == states2[|run2|]
  {
    RunReflects(run1, states1, |run1|);
    RunReflects(run2, states2, |run2|);
    assert run1[..|run1|] == run1 && run2[..|run2|] == run2;
    ReflectsUnique(states1[|run1|], states2[|run2|], Done(run1));
  }

  // ---------------------------------------------------------------- the class

  ghost predicate BeingWritten(pending: map<Task, PendingWrite>, f: Field) {
    exists op :: op in pending && f in pending[op].scope
  }

  datatype FlushLook = Await(operations: map<Task, PendingWrite>) | Throw(error: string) | Return

  class Tracker {
    var pending: map<Task, PendingWrite>
    var latestSuccessful: map<Field, nat>
    var retainedFailures: map<Field, RetainedFailure>
    var nextVersion: nat
    ghost var issued: map<nat, PendingWrite>       // what Track handed out, by version
    ghost var completions: set<Completion>         // what counted so far

    ghost function State(): Retained
      reads this
    {
      Retained(latestSuccessful, retainedFailures)
    }

    ghost predicate Valid()
      reads this
    {
      && Consistent(completions)
      && Reflects(State(), completions)
      && (forall c | c in completions :: c.version <= nextVersion)
      && (forall v | v in issued :: v <= nextVersion && issued[v].version == v && issued[v].scope != {})
      && (forall c | c in completions && c.version in issued :: c.scope == issued[c.version].scope)
      && (forall op | op in pending :: pending[op].version in issued && issued[pending[op].version] == pending[op])
    }

    constructor ()
      ensures Valid() && pending == map[] && completions == {} && issued == map[] && nextVersion == 0
    {
      pending, latestSuccessful, retainedFailures, nextVersion := map[], map[], map[], 0;
      issued, completions := map[], {};
    }

    /** An empty scope is rejected; tracking a task that is still pending consumes a version and throws. */
    method Track(operation: Task, scope: Scope) returns (r: Result<nat, string>)
      requires Valid()
      modifies this
      ensures Valid() && completions == old(completions) && State() == old(State())
      ensures r.Ok? <==> scope != {} && operation !in old(pending)
      ensures r.Err? ==> r.error == if scope == {} then "ArgumentOutOfRange" else "Argument"
      ensures nextVersion == old(nextVersion) + (if scope == {} then 0 else 1)
      ensures r.Ok? ==> r.value == nextVersion
      ensures r.Ok? ==> pending == old(pending)[operation := PendingWrite(r.value, scope)]
      ensures r.Ok? ==> issued == old(issued)[r.value := PendingWrite(r.value, scope)]
      ensures r.Err? ==> pending == old(pending) && issued == old(issued)
      ensures r.Ok? ==> forall f | f in scope :: BeingWritten(pending, f)
    {
      if scope == {} {
        return Err("ArgumentOutOfRange");
      }
      nextVersion := nextVersion + 1;
      if operation in pending {
        return Err("Argument");
      }
      pending := pending[operation := PendingWrite(nextVersion, scope)];
      assert operation in pending && pending[operation].scope == scope;
      issued := issued[nextVersion := PendingWrite(nextVersion, scope)];
      return Ok(nextVersion);
    }

    /** Resolving is the same as a newest success of the whole scope. */
    method Resolve(scope: Scope)
      requires Valid()
      modifies this
      ensures Valid() && pending == old(pending) && issued == old(issued)
      ensures scope == {} ==> State() == old(State()) && completions == old(completions)
      ensures scope == {} ==> nextVersion == old(nextVersion)
      ensures scope != {} ==> nextVersion == old(nextVersion) + 1
      ensures scope != {} ==> completions == old(completions) + {Completion(nextVersion, scope, Success)}
      ensures forall f: Field | f in scope :: SlotOf(State(), f) == Slot(Some(nextVersion), None)
    {
      if scope == {} {
        return;
      }
      nextVersion := nextVersion + 1;
      ghost var before, c := State(), Completion(nextVersion, scope, Success);
      Overwrite(nextVersion, scope);
      completions := completions + {c};
      CompleteReflects(before, old(completions), c, State());
    }

    /** The loop of Resolve. */
    method Overwrite(version: nat, scope: Scope)
      modifies this`latestSuccessful, this`retainedFailures
      ensures forall f: Field ::
        SlotOf(State(), f) == if f in scope then Slot(Some(version), None) else SlotOf(old(State()), f)
    {
      ghost var before := State();
      for i := 0 to |FIELDS|
        invariant forall f: Field ::
          SlotOf(State(), f) == if f in FIELDS[..i] && f in scope then Slot(Some(version), None) else SlotOf(before, f)
      {
        var field := FIELDS[i];
        if field in scope {
          latestSuccessful := latestSuccessful[field := version];
          retainedFailures := retainedFailures - {field};
        }
      }
      FieldsCover();
    }

    /** True exactly if some field of the scope is being written; for the full scope that is whether a
        flush has to wait. */
    method HasPending(scope: Scope) returns (r: bool)
      requires Valid()
      ensures r <==> exists f :: f in scope && BeingWritten(pending, f)
      ensures (forall f: Field :: f in scope) ==> (r <==> pending != map[])
    {
      if scope == {} {
        return false;
      }
      r := exists op | op in pending :: pending[op].scope * scope != {};
      if r {
        var op :| op in pending && pending[op].scope * scope != {};
        var f :| f in pending[op].scope * scope;
        assert BeingWritten(pending, f);
      }
      forall f | f in scope && BeingWritten(pending, f) ensures r {
        var op :| op in pending && f in pending[op].scope;
        assert f in pending[op].scope * scope;
      }
    }

    /** One observation of a task. `status` is final once completed, so a version that already
        counted is seen with the outcome it counted with. */
    method Complete(operation: Task, version: nat, scope: Scope, status: Status, abandoned: bool)
      requires Valid()
      requires version in issued && issued[version] == PendingWrite(version, scope)
      requires forall c | c in completions && c.version == version :: status == Completed(c.outcome)
      modifies this
      ensures Valid() && nextVersion == old(nextVersion) && issued == old(issued)
      ensures pending == if status.Running? then old(pending) else old(pending) - {operation}
      ensures completions == old(completions) +
        if status.Running? || abandoned then {} else {Completion(version, scope, status.outcome)}
      ensures status.Running? || abandoned ==> State() == old(State())
      ensures forall c | c in old(completions) && c.version == version :: State() == old(State())
    {
      if status.Running? {
        return;
      }
      pending := pending - {operation};
      if abandoned {
        return;
      }
      Count(version, scope, status.outcome);
    }

    method Count(version: nat, scope: Scope, outcome: Outcome)
      requires Valid()
      requires version in issued && issued[version] == PendingWrite(version, scope)
      requires forall c | c in completions && c.version == version :: c.outcome == outcome
      modifies this`latestSuccessful, this`retainedFailures, this`completions
      ensures Valid() && completions == old(completions) + {Completion(version, scope, outcome)}
      ensures Completion(version, scope, outcome) in old(completions) ==> State() == old(State())
    {
      ghost var before, c := State(), Completion(version, scope, outcome);
      match outcome {
        case Success => RecordSuccess(version, scope);
        case Failure(error) => RecordFailure(version, scope, error);
      }
      Counted(before, completions, c, State());
      completions := completions + {c};
    }

    method RecordSuccess(version: nat, scope: Scope)
      modifies this`latestSuccessful, this`retainedFailures
      ensures Completes(old(State()), Completion(version, scope, Success), State())
    {
      ghost var before := State();
      for i := 0 to |FIELDS|
        invariant forall f: Field ::
          SlotOf(State(), f) == if f in FIELDS[..i] && f in scope then CompleteSlot(SlotOf(before, f), version, Success)
                                else SlotOf(before, f)
      {
        var field := FIELDS[i];
        DistinctFields(i);
        if field in scope {
          if field !in latestSuccessful || version > latestSuccessful[field] {
            latestSuccessful := latestSuccessful[field := version];
          }
          if field in retainedFailures && version >= retainedFailures[field].version {
            retainedFailures := retainedFailures - {field};
          }
        }
      }
      FieldsCover();
    }

    method RecordFailure(version: nat, scope: Scope, error: string)
      modifies this`retainedFailures
      ensures Completes(old(State()), Completion(version, scope, Failure(error)), State())
    {
      ghost var before := State();
      for i := 0 to |FIELDS|
        invariant forall f: Field ::
          SlotOf(State(), f) ==
            if f in FIELDS[..i] && f in scope then CompleteSlot(SlotOf(before, f), version, Failure(error))
            else SlotOf(before, f)
      {
        var field := FIELDS[i];
        DistinctFields(i);
        if field in scope {
          if field in latestSuccessful && version <= latestSuccessful[field] {
            continue;
          }
          if field !in retainedFailures || version >= retainedFailures[field].version {
            retainedFailures := retainedFailures[field := RetainedFailure(version, error)];
          }
        }
      }
      FieldsCover();
    }

    /** The decision FlushAsync takes under the lock each time round its loop. */
    method Look() returns (r: FlushLook)
      requires Valid()
      ensures pending != map[] ==> r == Await(pending)
      ensures pending == map[] ==> (r.Return? <==> forall c, f | c in completions :: !Outstanding(c, completions, f))
      ensures r.Throw? ==> pending == map[] && exists c, f | c in completions ::
        Outstanding(c, completions, f) && r.error == c.outcome.error
        && forall d, g | d in completions && Outstanding(d, completions, g) :: d.version <= c.version
    {
      if pending != map[] {
        return Await(pending);
      }
      var newest: Option<RetainedFailure> := None;
      for i := 0 to |FIELDS|
        invariant newest.None? ==> forall f | f in FIELDS[..i] :: f !in retainedFailures
        invariant newest.Some? ==>
          exists f | f in FIELDS[..i] :: f in retainedFailures && retainedFailures[f] == newest.value
        invariant newest.Some? ==>
          forall f | f in FIELDS[..i] && f in retainedFailures :: retainedFailures[f].version <= newest.value.version
      {
        var field := FIELDS[i];
        assert FIELDS[..i + 1] == FIELDS[..i] + [field];
        if field in retainedFailures && (newest.None? || retainedFailures[field].version > newest.value.version) {
          newest := Some(retainedFailures[field]);
          assert field in FIELDS[..i + 1];
        }
      }
      FieldsCover();
      NewestRetained(State(), completions, newest);
      return if newest.Some? then Throw(newest.value.error) else Return;
    }

    /** The end of one FlushAsync round with no other thread in between: every awaited operation has
        completed and is recorded. */
    method RecordAwaited(operations: seq<(Task, PendingWrite)>, outcome: Task -> Outcome, abandoned: Task -> bool)
      requires Valid()
      requires forall o | o in operations :: o.1.version in issued && issued[o.1.version] == o.1
      requires forall o, c | o in operations && c in completions && c.version == o.1.version ::
        c.outcome == outcome(o.0)
      requires forall o, p | o in operations && p in operations && o.1.version == p.1.version :: o == p
      modifies this
      ensures Valid() && nextVersion == old(nextVersion) && issued == old(issued)
      ensures pending == old(pending) - Tasks(operations)
      ensures completions == old(completions) +
        Outcomes(operations, outcome, abandoned)
    {
      for i := 0 to |operations|
        invariant Valid() && nextVersion == old(nextVersion) && issued == old(issued)
        invariant pending == old(pending) - Tasks(operations[..i])
        invariant completions == old(completions) +
          Outcomes(operations[..i], outcome, abandoned)
      {
        var (operation, write) := operations[i];
        assert operations[i] in operations && operations[..i + 1] == operations[..i] + [operations[i]];
        AwaitedOneMore(operations[..i], operations[i], outcome, abandoned);
        AwaitedAgree(old(completions), operations, i, outcome, abandoned);
        Complete(operation, write.version, write.scope, Completed(outcome(operation)), abandoned(operation));
      }
      assert operations[..|operations|] == operations;
    }
  }

  ghost function Tasks(operations: seq<(Task, PendingWrite)>): set<Task> {
    set o | o in operations :: o.0
  }

  ghost function Outcomes(operations: seq<(Task, PendingWrite)>, outcome: Task -> Outcome,
                          abandoned: Task -> bool): set<Completion> {
    set o | o in operations && !abandoned(o.0) :: Completion(o.1.version, o.1.scope, outcome(o.0))
  }

  lemma AwaitedAgree(done: set<Completion>, operations: seq<(Task, PendingWrite)>, i: nat, outcome: Task -> Outcome,
                     abandoned: Task -> bool)
    requires i < |operations|
    requires forall o, c | o in operations && c in done && c.version == o.1.version :: c.outcome == outcome(o.0)
    requires forall o, p | o in operations && p in operations && o.1.version == p.1.version :: o == p
    ensures forall c | c in done + Outcomes(operations[..i], outcome, abandoned) ::
      c.version == operations[i].1.version ==> c.outcome == outcome(operations[i].0)
  {
    assert operations[i] in operations;
  }

  lemma AwaitedOneMore(operations: seq<(Task, PendingWrite)>, o: (Task, PendingWrite), outcome: Task -> Outcome,
                       abandoned: Task -> bool)
    ensures Tasks(operations + [o]) == Tasks(operations) + {o.0}
    ensures Outcomes(operations + [o], outcome, abandoned)
         == Outcomes(operations, outcome, abandoned)
            + (if abandoned(o.0) then {} else {Completion(o.1.version, o.1.scope, outcome(o.0))})
  {
  }

  /** What FlushAsync throws is the highest-version failure that is still outstanding. */
  lemma NewestRetained(s: Retained, done: set<Completion>, newest: Option<RetainedFailure>)
    requires Consistent(done) && Reflects(s, done)
    requires newest.None? ==> s.failures == map[]
    requires newest.Some? ==> exists f | f in s.failures :: s.failures[f] == newest.value
    requires newest.Some? ==> forall f | f in s.failures :: s.failures[f].version <= newest.value.version
    ensures newest.None? <==> forall c, f | c in done :: !Outstanding(c, done, f)
    ensures newest.Some? ==> exists c, f | c in done ::
      Outstanding(c, done, f) && newest.value == RetainedFailure(c.version, c.outcome.error)
      && forall d, g | d in done && Outstanding(d, done, g) :: d.version <= c.version
  {
    forall d, g | d in done && Outstanding(d, done, g) ensures g in s.failures && s.failures[g].version == d.version {
      assert SlotReflects(SlotOf(s, g), done, g);
    }
    if newest.Some? {
      var f :| f in s.failures && s.failures[f] == newest.value;
      assert SlotReflects(SlotOf(s, f), done, f);
    }
  }

  lemma FieldsCover()
    ensures forall f: Field :: f in FIELDS[..|FIELDS|]
  {
    assert FIELDS[..|FIELDS|] == FIELDS;
    forall f: Field ensures f in FIELDS {
      match f
      case Username => assert FIELDS[0] == f;
      case ReceiveDirectory => assert FIELDS[1] == f;
      case Theme => assert FIELDS[2] == f;
      case Notifications => assert FIELDS[3] == f;
      case RelayMode => assert FIELDS[4] == f;
      case RelayUrls => assert FIELDS[5] == f;
      case DiagnosticsInstallId => assert FIELDS[6] == f;
    }
  }

  lemma DistinctFields(i: nat)
    requires i < |FIELDS|
    ensures FIELDS[i] !in FIELDS[..i] && FIELDS[..i + 1] == FIELDS[..i] + [FIELDS[i]]
  {
  }
}
