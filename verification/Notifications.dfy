/** Which notices are shown and withdrawn over a run of snapshots (linux/src/notifications.rs, `Tracker`). */
module Notifications {
  import opened Common

  type Id = string

  datatype Notice = Notice(id: Id, pending: bool)

  /** A snapshot reduced to what `update` compares: the state of every known id, and the candidate
      notices, which are built together with their states, one per id. */
  datatype Snapshot = Snapshot(states: map<Id, string>, candidates: seq<Notice>)

  ghost predicate WellFormed(s: Snapshot) {
    && (forall n | n in s.candidates :: n.id in s.states)
    && (forall i, j | 0 <= i < j < |s.candidates| :: s.candidates[i].id != s.candidates[j].id)
  }

  function Ids(notices: seq<Notice>): set<Id> {
    set n | n in notices :: n.id
  }

  predicate IsPendingState(state: string) {
    state == "requested" || state == "pending" || "Incoming" <= state
  }

  function StateOf(states: map<Id, string>, id: Id): Option<string> {
    if id in states then Some(states[id]) else None
  }

  // ---------------------------------------------------------------- one step

  datatype State = State(previous: Option<map<Id, string>>, published: map<Id, string>)

  const INITIAL := State(None, map[])

  datatype Step = Update(snapshot: Snapshot, enabled: bool, foreground: bool) | WithdrawPending

  predicate Visible(step: Step) {
    step.Update? && step.enabled && !step.foreground
  }

  /** What a step takes down. */
  function Withdrawn(s: State, step: Step): set<Id> {
    match step
    case WithdrawPending => set id | id in s.published && IsPendingState(s.published[id])
    case Update(snapshot, _, _) =>
      set id | id in s.published
        && (!Visible(step) || id !in Ids(snapshot.candidates) || StateOf(snapshot.states, id) != Some(s.published[id]))
  }

  /** Whether a candidate is sent, given what stays published. */
  predicate Sends(s: State, step: Step, n: Notice) {
    && Visible(step) && (n.id !in s.published || n.id in Withdrawn(s, step))
    && (n.pending || (s.previous.Some? && StateOf(s.previous.value, n.id) != StateOf(step.snapshot.states, n.id)))
  }

  function Select(s: State, step: Step, candidates: seq<Notice>): (r: seq<Notice>)
    ensures forall n :: n in r <==> n in candidates && Sends(s, step, n)
  {
    if candidates == [] then []
    else
      var last := candidates[|candidates| - 1];
      Select(s, step, candidates[..|candidates| - 1]) + if Sends(s, step, last) then [last] else []
  }

  function Sent(s: State, step: Step): (r: seq<Notice>)
    ensures forall n :: n in r <==> step.Update? && n in step.snapshot.candidates && Sends(s, step, n)
  {
    if step.Update? then Select(s, step, step.snapshot.candidates) else []
  }

  ghost predicate StepOk(step: Step) {
    step.Update? ==> WellFormed(step.snapshot)
  }

  ghost function Next(s: State, step: Step): State
    requires StepOk(step)
  {
    match step
    case WithdrawPending => s.(published := s.published - Withdrawn(s, step))
    case Update(snapshot, _, _) =>
      State(Some(snapshot.states),
            s.published - Withdrawn(s, step) + map id | id in Ids(Sent(s, step)) :: snapshot.states[id])
  }

  class Tracker {
    var previous: Option<map<Id, string>>
    var published: map<Id, string>

    function Value(): State
      reads this
    {
      State(previous, published)
    }

    constructor ()
      ensures Value() == INITIAL
    {
      previous, published := None, map[];
    }

    method Withdraw() returns (withdrawn: set<Id>)
      modifies this
      ensures withdrawn == old(Withdrawn(Value(), WithdrawPending))
      ensures Value() == old(Next(Value(), WithdrawPending))
    {
      withdrawn := set id | id in published && IsPendingState(published[id]);
      published := published - withdrawn;
    }

    method Refresh(snapshot: Snapshot, enabled: bool, foreground: bool) returns (send: seq<Notice>, withdrawn: set<Id>)
      requires WellFormed(snapshot)
      modifies this
      ensures withdrawn == old(Withdrawn(Value(), Update(snapshot, enabled, foreground)))
      ensures send == old(Sent(Value(), Update(snapshot, enabled, foreground)))
      ensures Value() == old(Next(Value(), Update(snapshot, enabled, foreground)))
    {
      ghost var before, step := Value(), Update(snapshot, enabled, foreground);
      var live := Ids(snapshot.candidates);
      withdrawn := set id | id in published
        && (!enabled || foreground || id !in live || StateOf(snapshot.states, id) != Some(published[id]));
      published := published - withdrawn;
      send := [];
      for i := 0 to |snapshot.candidates|
        invariant published == before.published - withdrawn && previous == before.previous
        invariant withdrawn == Withdrawn(before, step)
        invariant send == Select(before, step, snapshot.candidates[..i])
      {
        var n := snapshot.candidates[i];
        assert snapshot.candidates[..i + 1][..i] == snapshot.candidates[..i];
        if enabled && !foreground && n.id !in published
           && (n.pending || (previous.Some? && StateOf(previous.value, n.id) != StateOf(snapshot.states, n.id))) {
          send := send + [n];
        }
      }
      assert snapshot.candidates[..|snapshot.candidates|] == snapshot.candidates;
      Publish(send, snapshot.states);
      previous := Some(snapshot.states);
    }

    method Publish(send: seq<Notice>, states: map<Id, string>)
      requires forall n | n in send :: n.id in states
      modifies this`published
      ensures published == old(published) + map id | id in Ids(send) :: states[id]
    {
      for i := 0 to |send|
        invariant published == old(published) + map id | id in Ids(send[..i]) :: states[id]
      {
        assert send[..i + 1] == send[..i] + [send[i]];
        PublishOne(old(published), send[..i], send[i], states);
        published := published[send[i].id := states[send[i].id]];
      }
      assert send[..|send|] == send;
    }
  }

  lemma PublishOne(published: map<Id, string>, send: seq<Notice>, n: Notice, states: map<Id, string>)
    requires forall m | m in send + [n] :: m.id in states
    ensures n in send + [n] && published + (map id | id in Ids(send + [n]) :: states[id])
         == (published + map id | id in Ids(send) :: states[id])[n.id := states[n.id]]
  {
    assert Ids(send + [n]) == Ids(send) + {n.id};
  }

  // ---------------------------------------------------------------- whole runs

  ghost predicate StepAt(states: seq<State>, steps: seq<Step>, i: nat) {
    i < |steps| < |states| && StepOk(steps[i]) && states[i + 1] == Next(states[i], steps[i])
  }

  ghost predicate IsRun(states: seq<State>, steps: seq<Step>) {
    |states| == |steps| + 1 && states[0] == INITIAL && forall i: nat | i < |steps| :: StepAt(states, steps, i)
  }

  ghost predicate SentAt(states: seq<State>, steps: seq<Step>, i: int, id: Id) {
    0 <= i < |steps| < |states| && id in Ids(Sent(states[i], steps[i]))
  }

  ghost predicate WithdrawnAt(states: seq<State>, steps: seq<Step>, i: int, id: Id) {
    0 <= i < |steps| < |states| && id in Withdrawn(states[i], steps[i])
  }

  lemma PublishedNext(s: State, step: Step, id: Id)
    requires StepOk(step)
    ensures id in Next(s, step).published <==>
      id in Ids(Sent(s, step)) || (id in s.published && id !in Withdrawn(s, step))
  {
  }

  lemma PublishedAt(states: seq<State>, steps: seq<Step>, i: nat, id: Id)
    requires IsRun(states, steps) && i <= |steps|
    ensures id in states[i].published <==>
      && i > 0
      && (SentAt(states, steps, i - 1, id)
          || (id in states[i - 1].published && !WithdrawnAt(states, steps, i - 1, id)))
  {
    if i > 0 {
      assert StepAt(states, steps, i - 1);
      PublishedNext(states[i - 1], steps[i - 1], id);
    }
  }

  /** Sent at step j and not withdrawn between then and step i. */
  ghost predicate Standing(states: seq<State>, steps: seq<Step>, j: int, i: int, id: Id) {
    0 <= j < i && SentAt(states, steps, j, id) && forall k | j < k < i :: !WithdrawnAt(states, steps, k, id)
  }

  lemma StandingNext(states: seq<State>, steps: seq<Step>, j: int, i: nat, id: Id)
    requires 0 <= j < i - 1 && i <= |steps| < |states|
    ensures Standing(states, steps, j, i, id) <==>
      Standing(states, steps, j, i - 1, id) && !WithdrawnAt(states, steps, i - 1, id)
  {
  }

  lemma JustSent(states: seq<State>, steps: seq<Step>, i: nat, id: Id)
    requires i > 0 && SentAt(states, steps, i - 1, id)
    ensures Standing(states, steps, i - 1, i, id)
  {
  }

  lemma {:induction false} SentStands(states: seq<State>, steps: seq<Step>, i: nat, id: Id) returns (j: int)
    requires IsRun(states, steps) && i <= |steps| && id in states[i].published
    ensures Standing(states, steps, j, i, id)
  {
    PublishedAt(states, steps, i, id);
    if SentAt(states, steps, i - 1, id) {
      j := i - 1;
      JustSent(states, steps, i, id);
    } else {
      j := SentStands(states, steps, i - 1, id);
      StandingNext(states, steps, j, i, id);
    }
  }

  lemma {:induction false} StandingIsPublished(states: seq<State>, steps: seq<Step>, j: int, i: nat, id: Id)
    requires IsRun(states, steps) && i <= |steps| && Standing(states, steps, j, i, id)
    ensures id in states[i].published
  {
    PublishedAt(states, steps, i, id);
    if j < i - 1 {
      StandingNext(states, steps, j, i, id);
      StandingIsPublished(states, steps, j, i - 1, id);
    }
  }

  /** An id is published exactly when it was sent and not withdrawn since. */
  lemma PublishedIffStanding(states: seq<State>, steps: seq<Step>, i: nat, id: Id)
    requires IsRun(states, steps) && i <= |steps|
    ensures id in states[i].published <==> exists j :: Standing(states, steps, j, i, id)
  {
    if id in states[i].published {
      var j := SentStands(states, steps, i, id);
    }
    if j :| Standing(states, steps, j, i, id) {
      StandingIsPublished(states, steps, j, i, id);
    }
  }

  /** Only published ids are withdrawn, what stays published is not sent again, and nothing is
      published while notifications are off or the window is in front. */
  lemma StepIsSound(states: seq<State>, steps: seq<Step>, i: nat, id: Id)
    requires IsRun(states, steps) && i < |steps|
    ensures WithdrawnAt(states, steps, i, id) ==> id in states[i].published
    ensures SentAt(states, steps, i, id) && id in states[i].published ==> WithdrawnAt(states, steps, i, id)
    ensures steps[i].Update? && !Visible(steps[i]) ==> states[i + 1].published == map[]
  {
    assert StepAt(states, steps, i);
    if SentAt(states, steps, i, id) {
      var n :| n in Sent(states[i], steps[i]) && n.id == id;
    }
  }

  /** `previous` holds the states of the latest update. */
  lemma {:induction false} PreviousIsLatest(states: seq<State>, steps: seq<Step>, i: nat) returns (k: int)
    requires IsRun(states, steps) && i <= |steps|
    ensures states[i].previous.None? ==> k == -1 && forall j | 0 <= j < i :: !steps[j].Update?
    ensures states[i].previous.Some? ==>
      0 <= k < i && steps[k].Update? && states[i].previous.value == steps[k].snapshot.states
      && forall j | k < j < i :: !steps[j].Update?
  {
    k := -1;
    if i > 0 {
      assert StepAt(states, steps, i - 1);
      if steps[i - 1].Update? {
        k := i - 1;
      } else {
        k := PreviousIsLatest(states, steps, i - 1);
      }
    }
  }

  /** Sent at step j, an id is published with its state in that update until it is withdrawn. */
  lemma {:induction false} PublishedState(states: seq<State>, steps: seq<Step>, j: int, i: nat, id: Id)
    requires IsRun(states, steps) && i <= |steps| && Standing(states, steps, j, i, id)
    ensures steps[j].Update? && id in steps[j].snapshot.states
    ensures id in states[i].published && states[i].published[id] == steps[j].snapshot.states[id]
  {
    assert StepAt(states, steps, i - 1);
    if j == i - 1 {
      SentState(states[j], steps[j], id);
    } else {
      StandingNext(states, steps, j, i, id);
      PublishedState(states, steps, j, i - 1, id);
      KeptState(states[i - 1], steps[i - 1], id);
    }
  }

  lemma SentState(s: State, step: Step, id: Id)
    requires StepOk(step) && id in Ids(Sent(s, step))
    ensures step.Update? && id in step.snapshot.states
    ensures id in Next(s, step).published && Next(s, step).published[id] == step.snapshot.states[id]
  {
    var n :| n in Sent(s, step) && n.id == id;
  }

  lemma KeptState(s: State, step: Step, id: Id)
    requires StepOk(step) && id in s.published && id !in Withdrawn(s, step)
    ensures id in Next(s, step).published && Next(s, step).published[id] == s.published[id]
  {
    assert forall n | n in Sent(s, step) :: Sends(s, step, n);
  }

  /** A standing notice is taken down exactly if it was pending when pending ones are withdrawn, or by an
      update while notifications are off or the window is in front, or that has no such candidate or
      another state for it. */
  lemma WithdrawnIff(states: seq<State>, steps: seq<Step>, j: int, i: nat, id: Id)
    requires IsRun(states, steps) && i < |steps| && Standing(states, steps, j, i, id)
    ensures steps[j].Update? && id in steps[j].snapshot.states
    ensures WithdrawnAt(states, steps, i, id) <==>
      var state := steps[j].snapshot.states[id];
      match steps[i]
      case WithdrawPending => state == "requested" || state == "pending" || "Incoming" <= state
      case Update(snapshot, enabled, foreground) =>
        || !enabled || foreground || (forall n | n in snapshot.candidates :: n.id != id)
        || StateOf(snapshot.states, id) != Some(state)
  {
    PublishedState(states, steps, j, i, id);
  }

  /** Step k is the latest update before step i. */
  ghost predicate IsLatestUpdate(steps: seq<Step>, k: int, i: nat) {
    0 <= k < i <= |steps| && steps[k].Update? && forall j | k < j < i :: !steps[j].Update?
  }

  /** There was an update before step i, and the latest one saw another state of the id. */
  ghost predicate SawOtherState(steps: seq<Step>, i: nat, id: Id)
    requires i < |steps| && steps[i].Update?
  {
    exists k :: IsLatestUpdate(steps, k, i) && OtherState(steps[k], steps[i], id)
  }

  predicate OtherState(a: Step, b: Step, id: Id) {
    a.Update? && b.Update? && StateOf(a.snapshot.states, id) != StateOf(b.snapshot.states, id)
  }

  /** An update sends a candidate exactly if notifications are on, the window is not in front, the notice
      does not stay published, and it is pending or its state differs from the one in the update before. */
  lemma SentIff(states: seq<State>, steps: seq<Step>, i: nat, n: Notice)
    requires IsRun(states, steps) && i < |steps| && steps[i].Update?
    ensures n in Sent(states[i], steps[i]) <==>
      && n in steps[i].snapshot.candidates && steps[i].enabled && !steps[i].foreground
      && (WithdrawnAt(states, steps, i, n.id) || forall j :: !Standing(states, steps, j, i, n.id))
      && (n.pending || SawOtherState(steps, i, n.id))
  {
    PublishedIffStanding(states, steps, i, n.id);
    var k := PreviousIsLatest(states, steps, i);
    if states[i].previous.Some? {
      assert IsLatestUpdate(steps, k, i);
      forall l | IsLatestUpdate(steps, l, i) ensures l == k {
      }
    } else {
      forall l ensures !IsLatestUpdate(steps, l, i) {
      }
    }
  }

  /** A notice that is not pending is sent twice for the same state only if an update in between saw
      another state. */
  lemma ResendNeedsChange(states: seq<State>, steps: seq<Step>, i: nat, j: nat, n: Notice)
    requires IsRun(states, steps) && i < j < |steps| && SentAt(states, steps, i, n.id)
    requires n in Sent(states[j], steps[j]) && !n.pending
    requires StateOf(steps[i].snapshot.states, n.id) == StateOf(steps[j].snapshot.states, n.id)
    ensures exists k | i < k < j ::
      steps[k].Update? && StateOf(steps[k].snapshot.states, n.id) != StateOf(steps[j].snapshot.states, n.id)
  {
    var k := PreviousIsLatest(states, steps, j);
    assert steps[i].Update?;
  }
}
