/** Which answer a handshake gets, from the steps of its run alone. */
module ApprovalAnswers {
  import opened Common
  import opened Approval

  // ---------------------------------------------------------------- the persisted row

  ghost function StatusOf(s: State, id: Id): Option<RowStatus> {
    if id in s.waiters && s.waiters[id].row.Some? then Some(s.waiters[id].row.value.status) else None
  }

  /** A step asks the repository to change the status of a row that is still requested. */
  ghost function StatusAsked(s: State, a: Action, id: Id): Option<RowStatus>
    requires Enabled(s, a)
  {
    match a
    case Own(i, AutoAccept(true)) => if i == id then Some(RowAccepted) else None
    case Own(i, ExpireRow(true)) => if i == id then Some(RowExpired) else None
    case UpdateRow(r, true) =>
      if s.responds[r].id != id then None else Some(if s.responds[r].accepted then RowAccepted else RowRefused)
    case _ => None
  }

  /** The status a step gives to the row, or None inside if it deletes it. */
  ghost function RowChange(s: State, a: Action, id: Id): Option<Option<RowStatus>>
    requires Enabled(s, a)
  {
    if StatusOf(s, id) == Some(RowRequested) && StatusAsked(s, a, id).Some? then Some(StatusAsked(s, a, id))
    else if a == Own(id, InsertRow(true)) || a == Own(id, AutoInsert(true)) then Some(Some(RowRequested))
    else if a == Own(id, CompleteDelivery) then Some(Some(RowCompleted))
    else if a == Own(id, FailDelivery) then Some(Some(RowFailed))
    else if a == Own(id, DeleteRow) then Some(None)
    else None
  }

  ghost predicate StatusFollows(s: State, a: Action, limits: Limits, id: Id)
    requires Enabled(s, a)
  {
    var change := RowChange(s, a, id);
    StatusOf(Step(s, a, limits), id) == if change.Some? then change.value else StatusOf(s, id)
  }

  lemma StatusAfterOwn(s: State, m: Move, limits: Limits, id: Id)
    requires Inv(s, limits) && Enabled(s, Own(id, m))
    ensures StatusFollows(s, Own(id, m), limits, id)
  {
    assert WaiterOk(s.waiters[id]);
    if m.AutoAccept? || m.ExpireRow? {
      StatusAskedOwn(s, m, limits, id);
    } else if !m.InsertRow? && !m.AutoInsert? {
      StatusStaysOwn(s.waiters[id], m, |s.pending| >= limits.maxPending);
    }
  }

  lemma StatusAskedOwn(s: State, m: Move, limits: Limits, id: Id)
    requires Enabled(s, Own(id, m)) && (m.AutoAccept? || m.ExpireRow?)
    ensures StatusFollows(s, Own(id, m), limits, id)
  {
  }

  /** Storing the token does not change the status. */
  lemma StatusStaysOwn(w: Waiter, m: Move, full: bool)
    requires CanMove(w, m) && !m.InsertRow? && !m.AutoInsert? && !m.AutoAccept? && !m.ExpireRow?
    ensures !m.CompleteDelivery? && !m.FailDelivery? && !m.DeleteRow? ==>
      Moved(w, m, full).row.Some? == w.row.Some?
      && (w.row.Some? ==> Moved(w, m, full).row.value.status == w.row.value.status)
  {
  }

  lemma StatusAfter(s: State, a: Action, limits: Limits, id: Id)
    requires Inv(s, limits) && Enabled(s, a)
    ensures StatusFollows(s, a, limits, id)
  {
    if a.Own? && a.id == id {
      StatusAfterOwn(s, a.move, limits, id);
    } else {
      WaitersAfter(s, a, limits, id);
    }
  }

  ghost predicate ChangesRowAt(states: seq<State>, actions: seq<Action>, k: int, id: Id) {
    0 <= k < |actions| < |states| && Enabled(states[k], actions[k]) && RowChange(states[k], actions[k], id).Some?
  }

  lemma {:induction false} StatusStays(states: seq<State>, actions: seq<Action>, limits: Limits,
                                       j: nat, i: nat, id: Id)
    requires IsRun(states, actions, limits) && j <= i <= |actions|
    requires forall k | j <= k < i :: !ChangesRowAt(states, actions, k, id)
    ensures StatusOf(states[i], id) == StatusOf(states[j], id)
  {
    if j < i {
      StatusStays(states, actions, limits, j, i - 1, id);
      assert StepAt(states, actions, limits, i - 1);
      RunInv(states, actions, limits, i - 1);
      StatusAfter(states[i - 1], actions[i - 1], limits, id);
      assert !ChangesRowAt(states, actions, i - 1, id);
    }
  }

  /** The status of a row is what the newest change made of it: inserted, accepted, refused or expired
      while still requested, completed or failed by a receipt, or deleted. */
  lemma RowIsLatest(states: seq<State>, actions: seq<Action>, limits: Limits, k: nat, i: nat, id: Id)
    requires IsRun(states, actions, limits) && k < i <= |actions|
    requires ChangesRowAt(states, actions, k, id)
    requires forall j | k < j < i :: !ChangesRowAt(states, actions, j, id)
    ensures StatusOf(states[i], id) == RowChange(states[k], actions[k], id).value
  {
    StatusStays(states, actions, limits, k + 1, i, id);
    assert StepAt(states, actions, limits, k);
    RunInv(states, actions, limits, k);
    StatusAfter(states[k], actions[k], limits, id);
  }

  lemma NoRowBefore(states: seq<State>, actions: seq<Action>, limits: Limits, i: nat, id: Id)
    requires IsRun(states, actions, limits) && i <= |actions|
    requires forall k | 0 <= k < i :: !ChangesRowAt(states, actions, k, id)
    ensures StatusOf(states[i], id) == None
  {
    StatusStays(states, actions, limits, 0, i, id);
  }

  // ---------------------------------------------------------------- the channel

  /** A responder that holds the sender sends its decision to a waiting handshake, or drops the sender
      because its update of the row failed. */
  ghost predicate Writes(s: State, a: Action, id: Id, c: Channel)
    requires Enabled(s, a)
  {
    match c
    case Silent => false
    case Decided(accepted) =>
      a.SendDecision? && Holds(s, a.r, id) && s.responds[a.r].accepted == accepted && s.waiters[id].phase.Waiting?
    case SenderDropped =>
      a.UpdateRow? && Holds(s, a.r, id) && !(a.ok && StatusOf(s, id) == Some(RowRequested))
  }

  ghost predicate WritesAt(states: seq<State>, actions: seq<Action>, k: int, id: Id, c: Channel) {
    0 <= k < |actions| < |states| && Enabled(states[k], actions[k]) && Writes(states[k], actions[k], id, c)
  }

  ghost predicate ChannelIs(s: State, id: Id, c: Channel) {
    id in s.waiters && s.waiters[id].channel == c
  }

  lemma ChannelAfter(s: State, a: Action, limits: Limits, id: Id, c: Channel)
    requires Inv(s, limits) && Enabled(s, a) && !c.Silent?
    ensures ChannelIs(Step(s, a, limits), id, c) <==> ChannelIs(s, id, c) || Writes(s, a, id, c)
  {
    WaitersAfter(s, a, limits, id);
    if a.Own? && id in s.waiters {
      ChannelAfterOwn(s, a, limits, id);
    } else if a.UpdateRow? || a.SendDecision? {
      assert HolderOk(s, a.r, id);
    }
  }

  lemma ChannelAfterOwn(s: State, a: Action, limits: Limits, id: Id)
    requires Enabled(s, a) && a.Own? && id in s.waiters
    ensures WaiterAfter(s, a, limits, id).channel == s.waiters[id].channel
  {
  }

  /** A decision reaches a handshake exactly if a responder that held its sender sent that decision
      while it was waiting, and its sender is gone exactly if the update of such a responder failed. */
  lemma {:induction false} ChannelIff(states: seq<State>, actions: seq<Action>, limits: Limits,
                                      i: nat, id: Id, c: Channel)
    requires IsRun(states, actions, limits) && i <= |actions| && !c.Silent?
    ensures ChannelIs(states[i], id, c) <==> exists k | 0 <= k < i :: WritesAt(states, actions, k, id, c)
  {
    if i > 0 {
      var n := i - 1;
      ChannelIff(states, actions, limits, n, id, c);
      RunInv(states, actions, limits, n);
      assert StepAt(states, actions, limits, n);
      ChannelAfter(states[n], actions[n], limits, id, c);
      assert WritesAt(states, actions, n, id, c) <==> Writes(states[n], actions[n], id, c);
      assert (exists k | 0 <= k < i :: WritesAt(states, actions, k, id, c)) <==>
        (WritesAt(states, actions, n, id, c) || exists k | 0 <= k < n :: WritesAt(states, actions, k, id, c));
    }
  }

  // ---------------------------------------------------------------- the pending map

  ghost predicate EntersAt(states: seq<State>, actions: seq<Action>, limits: Limits, k: int, id: Id) {
    0 <= k < |actions| < |states| && actions[k] == Own(id, Register) && |states[k].pending| < limits.maxPending
  }

  /** The handshake gives its place up, or a response takes its sender. */
  predicate Leaves(a: Action, id: Id) {
    a == Own(id, DropEntry) || a == Own(id, RemoveEntry) || (a.BeginRespond? && a.target == id)
  }

  /** A handshake is pending exactly if it found room and neither it nor a response took its entry out
      since. */
  lemma {:induction false} PendingIff(states: seq<State>, actions: seq<Action>, limits: Limits, i: nat, id: Id)
    requires IsRun(states, actions, limits) && i <= |actions|
    ensures id in states[i].pending <==>
      exists k | 0 <= k < i ::
        EntersAt(states, actions, limits, k, id) && forall j | k < j < i :: !Leaves(actions[j], id)
  {
    if i > 0 {
      var n := i - 1;
      PendingIff(states, actions, limits, n, id);
      assert StepAt(states, actions, limits, n);
      if EntersAt(states, actions, limits, n, id) {
        assert id in states[i].pending;
      } else {
        assert id in states[i].pending <==> id in states[n].pending && !Leaves(actions[n], id);
      }
    }
  }

  // ---------------------------------------------------------------- the policy log

  /** What a step adds to the log of the policy. */
  ghost predicate AddsToLog(s: State, a: Action, c: Policy.Change) {
    a == ChangePolicy(c)
    || (a.Own? && a.move.GrantSession? && a.id in s.waiters
        && var h := s.waiters[a.id].handshake; c == Policy.Grant(h.transfer, h.endpoint, Some(a.move.expiry)))
  }

  lemma LogGrows(s: State, a: Action, limits: Limits)
    requires Enabled(s, a)
    ensures (forall c :: !AddsToLog(s, a, c)) ==> Step(s, a, limits).log == s.log
    ensures forall c | AddsToLog(s, a, c) :: Step(s, a, limits).log == s.log + [c]
  {
    if a.Own? && a.move.GrantSession? {
      var h := s.waiters[a.id].handshake;
      assert AddsToLog(s, a, Policy.Grant(h.transfer, h.endpoint, Some(a.move.expiry)));
    } else if a.ChangePolicy? {
      assert AddsToLog(s, a, a.change);
    }
  }

  ghost predicate AddsAt(states: seq<State>, actions: seq<Action>, k: int, c: Policy.Change) {
    0 <= k < |actions| < |states| && AddsToLog(states[k], actions[k], c)
  }

  /** The log holds a change exactly if another part of the program made it, or a handshake granted its own
      endpoint a session until the given time. */
  lemma {:induction false} LogIff(states: seq<State>, actions: seq<Action>, limits: Limits, i: nat, c: Policy.Change)
    requires IsRun(states, actions, limits) && i <= |actions|
    ensures c in states[i].log <==> exists k | 0 <= k < i :: AddsAt(states, actions, k, c)
  {
    if i > 0 {
      var n := i - 1;
      LogIff(states, actions, limits, n, c);
      assert StepAt(states, actions, limits, n);
      LogGrows(states[n], actions[n], limits);
      if d :| AddsToLog(states[n], actions[n], d) {
        assert c in states[i].log <==> c in states[n].log || c == d;
      }
      assert AddsAt(states, actions, n, c) <==> AddsToLog(states[n], actions[n], c);
      assert (exists k | 0 <= k < i :: AddsAt(states, actions, k, c)) <==>
        (AddsAt(states, actions, n, c) || exists k | 0 <= k < n :: AddsAt(states, actions, k, c));
    }
  }

  // ---------------------------------------------------------------- answers

  /** The answer a step gives: a refused arrival, no place, a failed repository call, a row that is not
      in the state the call needs, a refusal, the end of the wait, or a stored receipt token. */
  ghost predicate Answers(s: State, a: Action, limits: Limits, id: Id, answer: Answer)
    requires Enabled(s, a)
  {
    match answer
    case Approved =>
      (a == Own(id, StoreToken(true)) || a == Own(id, AutoStoreToken(true))) && StatusOf(s, id) == Some(RowAccepted)
    case Denied(reason) =>
      || (a.Arrive? && a.id == id && Admit(a.handshake, limits.maxMetadataBytes) == Refuse(reason))
      || (reason == "too-many-pending-approvals" && a == Own(id, Register) && |s.pending| >= limits.maxPending)
      || (reason == "sender-refused" && a == Own(id, ReceiveDecision) && ChannelIs(s, id, Decided(false)))
      || (reason == "approval-timeout" && a.Own? && a.id == id && a.move.ExpireRow?)
      || (reason == "repository-error" && a.Own? && a.id == id && CallFails(s, id, a.move))
  }

  ghost predicate CallFails(s: State, id: Id, m: Move) {
    match m
    case DropEntry => true
    case AutoInsert(ok) => !ok
    case AutoAccept(ok) => !ok || StatusOf(s, id) != Some(RowRequested)
    case StoreToken(ok) => !ok || StatusOf(s, id) != Some(RowAccepted)
    case AutoStoreToken(ok) => !ok || StatusOf(s, id) != Some(RowAccepted)
    case _ => false
  }

  ghost predicate AnswersAt(states: seq<State>, actions: seq<Action>, limits: Limits, k: int, id: Id, answer: Answer) {
    && 0 <= k < |actions| < |states| && Enabled(states[k], actions[k])
    && Answers(states[k], actions[k], limits, id, answer)
  }

  lemma AnsweredAfter(s: State, a: Action, limits: Limits, id: Id, answer: Answer)
    requires Enabled(s, a)
    ensures At(Step(s, a, limits), id, Answered(answer)) <==>
      At(s, id, Answered(answer)) || Answers(s, a, limits, id, answer)
  {
    WaitersAfter(s, a, limits, id);
  }

  /** Every answer is the one some step of the run called for, and every such step gives its answer. */
  lemma {:induction false} AnsweredIff(states: seq<State>, actions: seq<Action>, limits: Limits,
                                       i: nat, id: Id, answer: Answer)
    requires IsRun(states, actions, limits) && i <= |actions|
    ensures At(states[i], id, Answered(answer)) <==>
      exists k | 0 <= k < i :: AnswersAt(states, actions, limits, k, id, answer)
  {
    if i > 0 {
      var n := i - 1;
      AnsweredIff(states, actions, limits, n, id, answer);
      assert StepAt(states, actions, limits, n);
      AnsweredAfter(states[n], actions[n], limits, id, answer);
      assert AnswersAt(states, actions, limits, n, id, answer) <==> Answers(states[n], actions[n], limits, id, answer);
      assert (exists k | 0 <= k < i :: AnswersAt(states, actions, limits, k, id, answer)) <==>
        (AnswersAt(states, actions, limits, n, id, answer)
         || exists k | 0 <= k < n :: AnswersAt(states, actions, limits, k, id, answer));
    }
  }

  // ---------------------------------------------------------------- the way to an approval

  /** The step that brought a waiter into its phase. */
  lemma {:induction false} Entered(states: seq<State>, actions: seq<Action>, limits: Limits, i: nat, id: Id, p: Phase)
    returns (k: nat)
    requires IsRun(states, actions, limits) && i <= |actions| && At(states[i], id, p)
    ensures k < i && StepAt(states, actions, limits, k) && !At(states[k], id, p) && At(states[k + 1], id, p)
  {
    k := i - 1;
    assert StepAt(states, actions, limits, k);
    if At(states[k], id, p) {
      k := Entered(states, actions, limits, k, id, p);
    }
  }

  /** The one step that leads into a phase. */
  ghost predicate LeadsTo(s: State, a: Action, limits: Limits, id: Id, p: Phase)
    requires Enabled(s, a)
  {
    match p
    case Asking => a.Arrive? && a.id == id && Admit(a.handshake, limits.maxMetadataBytes) == AskSender
    case Registered => a == Own(id, Register) && |s.pending| < limits.maxPending
    case InsertFailed => a == Own(id, InsertRow(false))
    case Waiting => a == Own(id, InsertRow(true))
    case Accepted => a == Own(id, ReceiveDecision) && ChannelIs(s, id, Decided(true))
    case Granted => a.Own? && a.id == id && a.move.GrantSession?
    case TimedOut => a == Own(id, TimeOut) && !s.waiters[id].channel.Decided?
    case Expiring => a == Own(id, RemoveEntry)
    case AutoInserting =>
      a.Arrive? && a.id == id && Admit(a.handshake, limits.maxMetadataBytes) == AllowWithoutSender
    case AutoAccepting => a == Own(id, AutoInsert(true))
    case AutoToken => a == Own(id, AutoAccept(true)) && StatusOf(s, id) == Some(RowRequested)
    case Answered(answer) => Answers(s, a, limits, id, answer)
  }

  lemma EnteredNow(s: State, a: Action, limits: Limits, id: Id, p: Phase)
    requires Enabled(s, a) && !At(s, id, p) && At(Step(s, a, limits), id, p)
    ensures LeadsTo(s, a, limits, id, p)
  {
    WaitersAfter(s, a, limits, id);
    if p.Answered? {
      AnsweredAfter(s, a, limits, id, p.answer);
    } else if a.Own? {
      EnteredByMove(s, a.move, limits, id, p);
    }
  }

  lemma EnteredByMove(s: State, m: Move, limits: Limits, id: Id, p: Phase)
    requires Enabled(s, Own(id, m)) && !p.Answered?
    requires !At(s, id, p) && At(Step(s, Own(id, m), limits), id, p)
    ensures LeadsTo(s, Own(id, m), limits, id, p)
  {
  }

  /** A handshake is where it is because of that step. */
  lemma EnteredBy(states: seq<State>, actions: seq<Action>, limits: Limits, i: nat, id: Id, p: Phase) returns (k: nat)
    requires IsRun(states, actions, limits) && i <= |actions| && At(states[i], id, p)
    ensures k < i && StepAt(states, actions, limits, k) && LeadsTo(states[k], actions[k], limits, id, p)
  {
    k := Entered(states, actions, limits, i, id, p);
    EnteredNow(states[k], actions[k], limits, id, p);
  }

  /** A request was inserted at step k0, accepted at k1 while still requested, and its token was stored
      at k2 while it was still accepted. */
  ghost predicate AutoApproval(states: seq<State>, actions: seq<Action>, k0: int, k1: int, k2: int, id: Id) {
    && 0 <= k0 < k1 < k2 < |actions| < |states|
    && actions[k0] == Own(id, AutoInsert(true))
    && actions[k1] == Own(id, AutoAccept(true)) && StatusOf(states[k1], id) == Some(RowRequested)
    && actions[k2] == Own(id, AutoStoreToken(true)) && StatusOf(states[k2], id) == Some(RowAccepted)
  }

  /** The decision to accept was received at step k0, the session granted at k1, and the token stored at
      k2 while the row was accepted. */
  ghost predicate SenderApproval(states: seq<State>, actions: seq<Action>, k0: int, k1: int, k2: int, id: Id) {
    && 0 <= k0 < k1 < k2 < |actions| < |states|
    && actions[k0] == Own(id, ReceiveDecision) && (exists k | 0 <= k < k0 :: DecidedAt(states, actions, k, id, true))
    && actions[k1].Own? && actions[k1].id == id && actions[k1].move.GrantSession?
    && actions[k2] == Own(id, StoreToken(true)) && StatusOf(states[k2], id) == Some(RowAccepted)
  }

  lemma AutoWay(states: seq<State>, actions: seq<Action>, limits: Limits, k2: nat, id: Id) returns (k0: nat, k1: nat)
    requires IsRun(states, actions, limits) && k2 < |actions| && actions[k2] == Own(id, AutoStoreToken(true))
    requires StatusOf(states[k2], id) == Some(RowAccepted)
    ensures AutoApproval(states, actions, k0, k1, k2, id)
  {
    assert StepAt(states, actions, limits, k2);
    k1 := EnteredBy(states, actions, limits, k2, id, AutoToken);
    k0 := EnteredBy(states, actions, limits, k1, id, AutoAccepting);
  }

  lemma SenderWay(states: seq<State>, actions: seq<Action>, limits: Limits, k2: nat, id: Id) returns (k0: nat, k1: nat)
    requires IsRun(states, actions, limits) && k2 < |actions| && actions[k2] == Own(id, StoreToken(true))
    requires StatusOf(states[k2], id) == Some(RowAccepted)
    ensures SenderApproval(states, actions, k0, k1, k2, id)
  {
    assert StepAt(states, actions, limits, k2);
    k1 := EnteredBy(states, actions, limits, k2, id, Granted);
    k0 := EnteredBy(states, actions, limits, k1, id, Accepted);
    DecisionWasSent(states, actions, limits, k0, id);
  }

  /** The two ways exclude each other, by the answer of the policy on arrival. */
  lemma WayOf(states: seq<State>, actions: seq<Action>, limits: Limits, k: nat, i: nat, id: Id)
    requires IsRun(states, actions, limits) && k < i <= |actions| && id in states[i].waiters
    ensures actions[k] == Own(id, AutoStoreToken(true)) ==> states[i].waiters[id].handshake.decidedAllow
    ensures actions[k] == Own(id, StoreToken(true)) ==> !states[i].waiters[id].handshake.decidedAllow
  {
    if actions[k].Own? && actions[k].id == id {
      assert StepAt(states, actions, limits, k);
      RunInv(states, actions, limits, k);
      assert WaiterOk(states[k].waiters[id]);
      HandshakeStays(states, actions, limits, k, i, id);
    }
  }

  /** A handshake the policy already allowed on arrival is approved exactly if its request was inserted,
      then accepted while still requested, then given its token while still accepted. */
  lemma AutoApprovedIff(states: seq<State>, actions: seq<Action>, limits: Limits, i: nat, id: Id)
    requires IsRun(states, actions, limits) && i <= |actions|
    requires id in states[i].waiters && states[i].waiters[id].handshake.decidedAllow
    ensures At(states[i], id, Answered(Approved)) <==>
      exists k0, k1, k2 | k2 < i :: AutoApproval(states, actions, k0, k1, k2, id)
  {
    AnsweredIff(states, actions, limits, i, id, Approved);
    if At(states[i], id, Answered(Approved)) {
      var k2: int :| 0 <= k2 < i && AnswersAt(states, actions, limits, k2, id, Approved);
      WayOf(states, actions, limits, k2, i, id);
      var k0, k1 := AutoWay(states, actions, limits, k2, id);
    }
    if k0: int, k1: int, k2: int :| k2 < i && AutoApproval(states, actions, k0, k1, k2, id) {
      assert StepAt(states, actions, limits, k2);
      assert AnswersAt(states, actions, limits, k2, id, Approved);
    }
  }

  /** Any other handshake is approved exactly if it received an accept of its own request and then was
      given its token while its row was accepted. */
  lemma SenderApprovedIff(states: seq<State>, actions: seq<Action>, limits: Limits, i: nat, id: Id)
    requires IsRun(states, actions, limits) && i <= |actions|
    requires id in states[i].waiters && !states[i].waiters[id].handshake.decidedAllow
    ensures At(states[i], id, Answered(Approved)) <==>
      exists k0, k1, k2 | k2 < i :: SenderApproval(states, actions, k0, k1, k2, id)
  {
    AnsweredIff(states, actions, limits, i, id, Approved);
    if At(states[i], id, Answered(Approved)) {
      var k2: int :| 0 <= k2 < i && AnswersAt(states, actions, limits, k2, id, Approved);
      WayOf(states, actions, limits, k2, i, id);
      var k0, k1 := SenderWay(states, actions, limits, k2, id);
    }
    if k0: int, k1: int, k2: int :| k2 < i && SenderApproval(states, actions, k0, k1, k2, id) {
      assert StepAt(states, actions, limits, k2);
      assert AnswersAt(states, actions, limits, k2, id, Approved);
    }
  }

  // ---------------------------------------------------------------- every handshake can be answered

  predicate OfProtocol(m: Move) {
    !m.CompleteDelivery? && !m.FailDelivery? && !m.DeleteRow?
  }

  /** How many steps of its own a handshake takes at most until it is answered. */
  function StepsLeft(p: Phase): nat {
    match p
    case Asking => 5
    case Registered => 4
    case Waiting => 3
    case AutoInserting => 3
    case Accepted => 2
    case TimedOut => 2
    case AutoAccepting => 2
    case Granted => 1
    case Expiring => 1
    case InsertFailed => 1
    case AutoToken => 1
    case Answered(_) => 0
  }

  /** Until it is answered a handshake has a step to take, whatever the others do. */
  lemma NeverStuck(s: State, id: Id) returns (m: Move)
    requires id in s.waiters && !s.waiters[id].phase.Answered?
    ensures OfProtocol(m) && Enabled(s, Own(id, m))
  {
    match s.waiters[id].phase {
      case Asking => m := Register;
      case Registered => m := InsertRow(true);
      case Waiting => m := if s.waiters[id].channel.Decided? then ReceiveDecision else TimeOut;
      case AutoInserting => m := AutoInsert(true);
      case Accepted => m := GrantSession(0);
      case TimedOut => m := RemoveEntry;
      case AutoAccepting => m := AutoAccept(true);
      case Granted => m := StoreToken(true);
      case Expiring => m := ExpireRow(true);
      case InsertFailed => m := DropEntry;
      case AutoToken => m := AutoStoreToken(true);
    }
  }

  predicate IsOwnStep(a: Action, id: Id) {
    a.Own? && a.id == id && OfProtocol(a.move)
  }

  function OwnSteps(actions: seq<Action>, id: Id): nat {
    if actions == [] then 0
    else OwnSteps(actions[..|actions| - 1], id) + if IsOwnStep(actions[|actions| - 1], id) then 1 else 0
  }

  lemma StepsLeftAfter(s: State, a: Action, limits: Limits, id: Id)
    requires Enabled(s, a) && id in s.waiters
    ensures StepsLeft(WaiterAfter(s, a, limits, id).phase) + (if IsOwnStep(a, id) then 1 else 0)
         <= StepsLeft(s.waiters[id].phase)
  {
  }

  /** In every run a handshake takes at most five steps of its own, three without the sender. */
  lemma {:induction false} AnsweredSoon(states: seq<State>, actions: seq<Action>, limits: Limits, i: nat, id: Id)
    requires IsRun(states, actions, limits) && i <= |actions|
    ensures id !in states[i].waiters ==> OwnSteps(actions[..i], id) == 0
    ensures id in states[i].waiters ==>
      var w := states[i].waiters[id];
      OwnSteps(actions[..i], id) + StepsLeft(w.phase) <= if w.handshake.decidedAllow then 3 else 5
  {
    if i > 0 {
      var n := i - 1;
      AnsweredSoon(states, actions, limits, n, id);
      assert StepAt(states, actions, limits, n);
      assert actions[..i][..n] == actions[..n];
      WaitersAfter(states[n], actions[n], limits, id);
      if id in states[n].waiters {
        StepsLeftAfter(states[n], actions[n], limits, id);
        HandshakeAfter(states[n], actions[n], limits, id);
      }
    }
  }
}
