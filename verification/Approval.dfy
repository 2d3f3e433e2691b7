/** The sender-approval protocol (crates/vnidrop/src/approval.rs) as a transition system. Each action
    is what one task does between two awaits: a critical section on `pending`, one repository call
    (which may fail), one policy call or one channel operation. */
module Approval {
  import opened Common
  import Policy = AccessPolicy

  type Id = nat         // a handshake, and the request id it mints
  type Responder = nat  // one call of `respond`

  // ---------------------------------------------------------------- entry checks

  /** What one handshake asks for and what the services answer to its entry checks; `decidedAllow` is
      the answer of AccessPolicy for this transfer and endpoint. */
  datatype Handshake = Handshake(
    transfer: Policy.Transfer, endpoint: Policy.Endpoint,
    blocked: Result<bool, ()>, metadata: seq<nat>, sendExists: Result<bool, ()>, decidedAllow: bool)

  datatype Admission = Refuse(reason: string) | AllowWithoutSender | AskSender

  predicate Passes(h: Handshake, maxMetadataBytes: nat) {
    h.blocked == Ok(false) && h.sendExists == Ok(true) && forall size | size in h.metadata :: size <= maxMetadataBytes
  }

  function Admit(h: Handshake, maxMetadataBytes: nat): (a: Admission)
    ensures a.AllowWithoutSender? <==> Passes(h, maxMetadataBytes) && h.decidedAllow
    ensures a.AskSender? <==> Passes(h, maxMetadataBytes) && !h.decidedAllow
    ensures a == Refuse("not-accepted") <==> h.blocked != Ok(false)
    ensures a == Refuse("metadata-too-large") <==>
      h.blocked == Ok(false) && exists size | size in h.metadata :: size > maxMetadataBytes
    ensures a == Refuse("unknown-transfer") <==>
      && h.blocked == Ok(false) && h.sendExists == Ok(false)
      && forall size | size in h.metadata :: size <= maxMetadataBytes
    ensures a == Refuse("repository-error") <==>
      && h.blocked == Ok(false) && h.sendExists.Err?
      && forall size | size in h.metadata :: size <= maxMetadataBytes
  {
    if h.blocked.Err? || h.blocked.value then Refuse("not-accepted")
    else if exists size | size in h.metadata :: size > maxMetadataBytes then Refuse("metadata-too-large")
    else match h.sendExists
      case Err(_) => Refuse("repository-error")
      case Ok(false) => Refuse("unknown-transfer")
      case Ok(true) => if h.decidedAllow then AllowWithoutSender else AskSender
  }

  // ---------------------------------------------------------------- state

  datatype Answer = Approved | Denied(reason: string)

  datatype Phase =
    // wait_for_sender_decision
    | Asking | Registered | InsertFailed | Waiting | Accepted | Granted | TimedOut | Expiring
    // allow_without_sender_decision
    | AutoInserting | AutoAccepting | AutoToken
    | Answered(answer: Answer)

  /** The oneshot channel of a waiter, from its receiving end. */
  datatype Channel = Silent | Decided(accepted: bool) | SenderDropped

  datatype RespondPhase = Updating | Sending
  datatype Respond = Respond(id: Id, accepted: bool, holdsSender: bool, phase: RespondPhase)

  datatype RowStatus = RowRequested | RowAccepted | RowRefused | RowExpired | RowCompleted | RowFailed
  datatype Row = Row(status: RowStatus, hasToken: bool)

  /** One handshake: what it asked, where its task is, its channel and its persisted row. `granted`
      records that it gave its endpoint a session, `decisions` counts the values sent into its
      channel. */
  datatype Waiter = Waiter(
    handshake: Handshake, phase: Phase, channel: Channel, row: Option<Row>, granted: bool, decisions: nat)

  /** `log` lists the changes of the access policy. */
  datatype State = State(
    pending: set<Id>, waiters: map<Id, Waiter>, responds: map<Responder, Respond>, log: seq<Policy.Change>)

  const INITIAL := State({}, map[], map[], [])

  datatype Limits = Limits(maxPending: nat, maxMetadataBytes: nat)

  // ---------------------------------------------------------------- the moves of one handshake

  /** The steps of a handshake's own task, and what becomes of its row: a receipt completes or fails it,
      and deleting the transfer removes it. */
  datatype Move =
    | Register
    | InsertRow(ok: bool)
    | DropEntry
    | ReceiveDecision
    | TimeOut
    | RemoveEntry
    | ExpireRow(ok: bool)
    | GrantSession(expiry: int)
    | StoreToken(ok: bool)
    | AutoInsert(ok: bool)
    | AutoAccept(ok: bool)
    | AutoStoreToken(ok: bool)
    | CompleteDelivery
    | FailDelivery
    | DeleteRow

  predicate CanMove(w: Waiter, m: Move) {
    match m
    case Register => w.phase.Asking?
    case InsertRow(_) => w.phase.Registered?
    case DropEntry => w.phase.InsertFailed?
    case ReceiveDecision => w.phase.Waiting? && w.channel.Decided?
    case TimeOut => w.phase.Waiting? && !w.channel.Decided?
    case RemoveEntry => w.phase.TimedOut?
    case ExpireRow(_) => w.phase.Expiring?
    case GrantSession(_) => w.phase.Accepted?
    case StoreToken(_) => w.phase.Granted?
    case AutoInsert(_) => w.phase.AutoInserting?
    case AutoAccept(_) => w.phase.AutoAccepting?
    case AutoStoreToken(_) => w.phase.AutoToken?
    case CompleteDelivery => w.row == Some(Row(RowAccepted, true))
    case FailDelivery => w.row == Some(Row(RowAccepted, true))
    case DeleteRow => w.row.Some?
  }

  function Deny(w: Waiter, reason: string): Waiter {
    w.(phase := Answered(Denied(reason)))
  }

  /** `update_receiver_request_status` only touches rows still requested. */
  predicate Updatable(w: Waiter) {
    w.row.Some? && w.row.value.status.RowRequested?
  }

  predicate RowAccepts(w: Waiter) {
    w.row.Some? && w.row.value.status.RowAccepted?
  }

  /** `set_receiver_receipt_token` only touches accepted rows; the answer depends on it. */
  function TokenStored(w: Waiter, ok: bool): Waiter {
    if ok && RowAccepts(w) then w.(phase := Answered(Approved), row := Some(Row(RowAccepted, true)))
    else Deny(w, "repository-error")
  }

  /** `full`: the pending map has reached its limit. */
  function Moved(w: Waiter, m: Move, full: bool): Waiter
    requires CanMove(w, m)
  {
    match m
    case Register => if full then Deny(w, "too-many-pending-approvals") else w.(phase := Registered)
    case InsertRow(ok) =>
      if ok then w.(phase := Waiting, row := Some(Row(RowRequested, false))) else w.(phase := InsertFailed)
    case DropEntry => Deny(w, "repository-error")
    case ReceiveDecision => if w.channel.accepted then w.(phase := Accepted) else Deny(w, "sender-refused")
    case TimeOut => w.(phase := TimedOut)
    case RemoveEntry => w.(phase := Expiring)
    case ExpireRow(ok) =>
      Deny(if ok && Updatable(w) then w.(row := Some(Row(RowExpired, false))) else w, "approval-timeout")
    case GrantSession(_) => w.(phase := Granted, granted := true)
    case StoreToken(ok) => TokenStored(w, ok)
    case AutoInsert(ok) =>
      if ok then w.(phase := AutoAccepting, row := Some(Row(RowRequested, false))) else Deny(w, "repository-error")
    case AutoAccept(ok) =>
      if ok && Updatable(w) then w.(phase := AutoToken, row := Some(Row(RowAccepted, false)))
      else Deny(w, "repository-error")
    case AutoStoreToken(ok) => TokenStored(w, ok)
    case CompleteDelivery => w.(row := Some(Row(RowCompleted, true)))
    case FailDelivery => w.(row := Some(Row(RowFailed, true)))
    case DeleteRow => w.(row := None)
  }

  function PendingAfter(pending: set<Id>, id: Id, m: Move, full: bool): set<Id> {
    if m.Register? && !full then pending + {id}
    else if m.DropEntry? || m.RemoveEntry? then pending - {id}
    else pending
  }

  function LogAfter(log: seq<Policy.Change>, h: Handshake, m: Move): seq<Policy.Change> {
    if m.GrantSession? then log + [Policy.Grant(h.transfer, h.endpoint, Some(m.expiry))] else log
  }

  // ---------------------------------------------------------------- the effects of a response

  predicate Updates(w: Waiter, ok: bool) {
    ok && Updatable(w)
  }

  /** A failed update returns early and drops the sender it holds. */
  function RowUpdated(w: Waiter, respond: Respond, ok: bool): Waiter {
    if Updates(w, ok) then w.(row := Some(Row(if respond.accepted then RowAccepted else RowRefused, false)))
    else if respond.holdsSender then w.(channel := SenderDropped)
    else w
  }

  predicate Delivers(w: Waiter, respond: Respond) {
    respond.holdsSender && w.phase.Waiting?
  }

  function DecisionSent(w: Waiter, respond: Respond): Waiter {
    if Delivers(w, respond) then w.(channel := Decided(respond.accepted), decisions := w.decisions + 1) else w
  }

  // ---------------------------------------------------------------- steps of the system

  /** `ChangePolicy` is what other parts of the program do to the policy: modes, removals and explicit
      approvals. */
  datatype Action =
    | Arrive(id: Id, handshake: Handshake, now: int)
    | Own(id: Id, move: Move)
    | BeginRespond(r: Responder, target: Id, accepted: bool)
    | UpdateRow(r: Responder, ok: bool)
    | SendDecision(r: Responder)
    | ChangePolicy(change: Policy.Change)

  predicate At(s: State, id: Id, p: Phase) {
    id in s.waiters && s.waiters[id].phase == p
  }

  /** The policy never allows more than its log does (AccessPolicy.AllowedIff). */
  ghost predicate Enabled(s: State, a: Action) {
    match a
    case Arrive(id, h, now) =>
      id !in s.waiters && (h.decidedAllow ==> Policy.Allows(s.log, h.transfer, Some(h.endpoint), now))
    case Own(id, m) => id in s.waiters && CanMove(s.waiters[id], m)
    case BeginRespond(r, _, _) => r !in s.responds
    case UpdateRow(r, _) => r in s.responds && s.responds[r].phase.Updating?
    case SendDecision(r) => r in s.responds && s.responds[r].phase.Sending? && s.responds[r].id in s.waiters
    case ChangePolicy(_) => true
  }

  function Arrived(h: Handshake, limits: Limits): Waiter {
    var phase := match Admit(h, limits.maxMetadataBytes)
      case Refuse(reason) => Answered(Denied(reason))
      case AllowWithoutSender => AutoInserting
      case AskSender => Asking;
    Waiter(h, phase, Silent, None, false, 0)
  }

  ghost function Step(s: State, a: Action, limits: Limits): State
    requires Enabled(s, a)
  {
    match a
    case Arrive(id, h, _) => s.(waiters := s.waiters[id := Arrived(h, limits)])
    case Own(id, m) =>
      var full := |s.pending| >= limits.maxPending;
      State(PendingAfter(s.pending, id, m, full), s.waiters[id := Moved(s.waiters[id], m, full)], s.responds,
            LogAfter(s.log, s.waiters[id].handshake, m))
    case BeginRespond(r, target, accepted) =>
      s.(pending := s.pending - {target},
         responds := s.responds[r := Respond(target, accepted, target in s.pending, Updating)])
    case UpdateRow(r, ok) =>
      var respond := s.responds[r];
      if respond.id !in s.waiters then s.(responds := s.responds - {r})
      else
        var w := s.waiters[respond.id];
        s.(waiters := s.waiters[respond.id := RowUpdated(w, respond, ok)],
           responds := if Updates(w, ok) then s.responds[r := respond.(phase := Sending)] else s.responds - {r})
    case SendDecision(r) =>
      var respond := s.responds[r];
      s.(waiters := s.waiters[respond.id := DecisionSent(s.waiters[respond.id], respond)], responds := s.responds - {r})
    case ChangePolicy(change) => s.(log := s.log + [change])
  }

  // ---------------------------------------------------------------- invariant of one waiter

  predicate Live(p: Phase) {
    p.Registered? || p.InsertFailed? || p.Waiting? || p.TimedOut?
  }

  predicate Auto(p: Phase) {
    p.AutoInserting? || p.AutoAccepting? || p.AutoToken?
  }

  predicate HasDecision(p: Phase) {
    p.Accepted? || p.Granted?
  }

  /** The row was inserted, and if it was not deleted since it is accepted, with or without a receipt. */
  predicate AcceptedRow(w: Waiter) {
    && !w.phase.Asking? && !w.phase.Registered? && !w.phase.InsertFailed? && !w.phase.AutoInserting?
    && (w.row.Some? ==> w.row.value.status in {RowAccepted, RowCompleted, RowFailed})
  }

  predicate HasToken(w: Waiter) {
    w.row.Some? && w.row.value.hasToken
  }

  /** Nothing was sent to the waiter and its sender was not dropped. */
  predicate Unused(w: Waiter) {
    w.channel.Silent? && w.decisions == 0
  }

  /** What is true of every waiter on its own; `h.decidedAllow` says which of the two paths it took. */
  predicate WaiterOk(w: Waiter) {
    var p, h := w.phase, w.handshake;
    && w.decisions == (if w.channel.Decided? then 1 else 0)
    && (p.Asking? ==> Unused(w))
    && (Auto(p) ==> h.decidedAllow && Unused(w))
    && (p.Asking? || Live(p) || p.Expiring? || HasDecision(p) ==> !h.decidedAllow)
    && (p.Asking? || p.Registered? || p.InsertFailed? || p.AutoInserting? ==> w.row.None?)
    && (HasDecision(p) ==> w.channel == Decided(true))
    && (w.channel == Decided(true) ==> AcceptedRow(w))
    && (w.granted ==> w.channel == Decided(true))
    && (p.Granted? ==> w.granted)
    && (p == Answered(Approved) ==> AcceptedRow(w) && (w.row.Some? ==> HasToken(w)) && (h.decidedAllow || w.granted))
    && (HasToken(w) ==> p == Answered(Approved))
    && (w.row.Some? && w.row.value.status in {RowCompleted, RowFailed} ==> HasToken(w))
    && (w.granted ==> p.Granted? || p == Answered(Approved) || p == Answered(Denied("repository-error")))
  }

  lemma ArrivedOk(h: Handshake, limits: Limits)
    ensures WaiterOk(Arrived(h, limits))
  {
  }

  lemma MovedOk(w: Waiter, m: Move, full: bool)
    requires WaiterOk(w) && CanMove(w, m)
    ensures WaiterOk(Moved(w, m, full))
  {
  }

  lemma RowUpdatedOk(w: Waiter, respond: Respond, ok: bool)
    requires WaiterOk(w) && (respond.holdsSender ==> Unused(w) && !w.phase.Asking? && !Auto(w.phase))
    ensures WaiterOk(RowUpdated(w, respond, ok))
    ensures Updates(w, ok) && respond.accepted ==> AcceptedRow(RowUpdated(w, respond, ok))
  {
  }

  lemma DecisionSentOk(w: Waiter, respond: Respond)
    requires WaiterOk(w) && (respond.holdsSender ==> Unused(w)) && (respond.accepted ==> AcceptedRow(w))
    ensures WaiterOk(DecisionSent(w, respond))
  {
  }

  // ---------------------------------------------------------------- invariant of the system

  ghost predicate Holds(s: State, r: Responder, id: Id) {
    r in s.responds && s.responds[r].holdsSender && s.responds[r].id == id
  }

  /** A pending entry is the unused sender of a live waiter. */
  ghost predicate EntryOk(s: State, id: Id) {
    id in s.pending ==> id in s.waiters && Live(s.waiters[id].phase) && Unused(s.waiters[id])
  }

  /** So is a sender some responder removed, and nobody else has it. */
  ghost predicate HolderOk(s: State, r: Responder, id: Id) {
    Holds(s, r, id) ==>
      && id !in s.pending && id in s.waiters && Unused(s.waiters[id]) && !s.waiters[id].phase.Asking?
      && !Auto(s.waiters[id].phase)
      && forall q | Holds(s, q, id) :: q == r
  }

  ghost predicate RespondOk(s: State, r: Responder) {
    r in s.responds && s.responds[r].phase.Sending? ==>
      s.responds[r].id in s.waiters && (s.responds[r].accepted ==> AcceptedRow(s.waiters[s.responds[r].id]))
  }

  ghost predicate Inv(s: State, limits: Limits) {
    && |s.pending| <= limits.maxPending
    && (forall id: Id :: EntryOk(s, id))
    && (forall r: Responder, id: Id :: HolderOk(s, r, id))
    && (forall id | id in s.waiters :: WaiterOk(s.waiters[id]))
    && (forall r: Responder :: RespondOk(s, r))
  }

  /** The handshake an action writes to, if any. */
  ghost function Subject(s: State, a: Action): Option<Id>
    requires Enabled(s, a)
  {
    match a
    case Arrive(id, _, _) => Some(id)
    case Own(id, _) => Some(id)
    case UpdateRow(r, _) => Some(s.responds[r].id)
    case SendDecision(r) => Some(s.responds[r].id)
    case _ => None
  }

  /** What an action makes of a waiter that was there before. */
  ghost function WaiterAfter(s: State, a: Action, limits: Limits, id: Id): Waiter
    requires Enabled(s, a) && id in s.waiters
  {
    var w := s.waiters[id];
    if Subject(s, a) != Some(id) then w
    else match a
      case Own(_, m) => Moved(w, m, |s.pending| >= limits.maxPending)
      case UpdateRow(r, ok) => RowUpdated(w, s.responds[r], ok)
      case SendDecision(r) => DecisionSent(w, s.responds[r])
      case _ => w
  }

  /** Waiters are never removed, appear only on arrival and change only as WaiterAfter says. */
  lemma WaitersAfter(s: State, a: Action, limits: Limits, id: Id)
    requires Enabled(s, a)
    ensures id in s.waiters ==> id in Step(s, a, limits).waiters
    ensures id in s.waiters ==> Step(s, a, limits).waiters[id] == WaiterAfter(s, a, limits, id)
    ensures id in Step(s, a, limits).waiters && id !in s.waiters ==>
      a.Arrive? && a.id == id && Step(s, a, limits).waiters[id] == Arrived(a.handshake, limits)
  {
  }

  lemma WaiterPreserved(s: State, a: Action, limits: Limits, id: Id)
    requires Inv(s, limits) && Enabled(s, a) && id in s.waiters
    ensures WaiterOk(WaiterAfter(s, a, limits, id))
  {
    if Subject(s, a) == Some(id) {
      match a {
        case Own(_, m) => MovedOk(s.waiters[id], m, |s.pending| >= limits.maxPending);
        case UpdateRow(r, ok) =>
          assert HolderOk(s, r, id);
          RowUpdatedOk(s.waiters[id], s.responds[r], ok);
        case SendDecision(r) =>
          assert HolderOk(s, r, id) && RespondOk(s, r);
          DecisionSentOk(s.waiters[id], s.responds[r]);
        case _ =>
      }
    }
  }

  /** What a move means for a sender that is still around. */
  lemma MovedSender(w: Waiter, m: Move, full: bool)
    requires CanMove(w, m) && WaiterOk(w) && Unused(w)
    ensures Unused(Moved(w, m, full)) && (!w.phase.Asking? && !Auto(w.phase) ==>
      !Moved(w, m, full).phase.Asking? && !Auto(Moved(w, m, full).phase))
    ensures Live(w.phase) && !m.DropEntry? && !m.RemoveEntry? ==> Live(Moved(w, m, full).phase)
    ensures m.Register? && !full ==> Live(Moved(w, m, full).phase)
  {
  }

  lemma EntryPreserved(s: State, a: Action, limits: Limits, id: Id)
    requires Inv(s, limits) && Enabled(s, a)
    ensures EntryOk(Step(s, a, limits), id)
  {
    assert EntryOk(s, id);
    WaitersAfter(s, a, limits, id);
    if a.Own? && a.id == id {
      assert WaiterOk(s.waiters[id]);
      if Unused(s.waiters[id]) {
        MovedSender(s.waiters[id], a.move, |s.pending| >= limits.maxPending);
      }
    } else if a.UpdateRow? || a.SendDecision? {
      assert HolderOk(s, a.r, id);
    }
  }

  lemma HoldsBefore(s: State, a: Action, limits: Limits, r: Responder, id: Id)
    requires Enabled(s, a) && Holds(Step(s, a, limits), r, id)
    ensures Holds(s, r, id) || (a.BeginRespond? && a.r == r && a.target == id && id in s.pending)
    ensures a.UpdateRow? && a.r == r ==> id in s.waiters && Updates(s.waiters[id], a.ok)
    ensures !(a.SendDecision? && a.r == r)
  {
  }

  lemma HolderPreserved(s: State, a: Action, limits: Limits, r: Responder, id: Id)
    requires Inv(s, limits) && Enabled(s, a)
    ensures HolderOk(Step(s, a, limits), r, id)
  {
    var s' := Step(s, a, limits);
    if Holds(s', r, id) {
      HoldsBefore(s, a, limits, r, id);
      assert EntryOk(s, id) && HolderOk(s, r, id);
      WaitersAfter(s, a, limits, id);
      forall q | Holds(s', q, id) ensures q == r {
        HoldsBefore(s, a, limits, q, id);
        assert HolderOk(s, q, id);
      }
      if a.Own? && a.id == id {
        MovedSender(s.waiters[id], a.move, |s.pending| >= limits.maxPending);
      } else if a.UpdateRow? || a.SendDecision? {
        assert HolderOk(s, a.r, id);
      }
    }
  }

  /** No step undoes an accepted row, but by deleting it. */
  lemma RowStaysAccepted(s: State, a: Action, limits: Limits, id: Id)
    requires Enabled(s, a) && id in s.waiters && WaiterOk(s.waiters[id]) && AcceptedRow(s.waiters[id])
    ensures AcceptedRow(WaiterAfter(s, a, limits, id))
  {
  }

  lemma RespondPreserved(s: State, a: Action, limits: Limits, r: Responder)
    requires Inv(s, limits) && Enabled(s, a)
    ensures RespondOk(Step(s, a, limits), r)
  {
    assert RespondOk(s, r);
    if r in s.responds {
      var id := s.responds[r].id;
      WaitersAfter(s, a, limits, id);
      if id in s.waiters && AcceptedRow(s.waiters[id]) {
        RowStaysAccepted(s, a, limits, id);
      }
    }
  }

  lemma InvPreserved(s: State, a: Action, limits: Limits)
    requires Inv(s, limits) && Enabled(s, a)
    ensures Inv(Step(s, a, limits), limits)
  {
    var s' := Step(s, a, limits);
    forall id: Id ensures EntryOk(s', id) {
      EntryPreserved(s, a, limits, id);
    }
    forall r: Responder, id: Id ensures HolderOk(s', r, id) {
      HolderPreserved(s, a, limits, r, id);
    }
    forall r: Responder ensures RespondOk(s', r) {
      RespondPreserved(s, a, limits, r);
    }
    forall id | id in s'.waiters ensures WaiterOk(s'.waiters[id]) {
      WaitersAfter(s, a, limits, id);
      if id in s.waiters {
        WaiterPreserved(s, a, limits, id);
      } else {
        ArrivedOk(a.handshake, limits);
      }
    }
    assert |s'.pending| <= limits.maxPending by {
      PendingBounded(s, a, limits);
    }
  }

  lemma PendingBounded(s: State, a: Action, limits: Limits)
    requires |s.pending| <= limits.maxPending && Enabled(s, a)
    ensures |Step(s, a, limits).pending| <= limits.maxPending
  {
  }

  // ---------------------------------------------------------------- whole runs

  ghost predicate StepAt(states: seq<State>, actions: seq<Action>, limits: Limits, i: nat) {
    i < |actions| < |states| && Enabled(states[i], actions[i]) && states[i + 1] == Step(states[i], actions[i], limits)
  }

  ghost predicate IsRun(states: seq<State>, actions: seq<Action>, limits: Limits) {
    && |states| == |actions| + 1 && states[0] == INITIAL
    && forall i: nat | i < |actions| :: StepAt(states, actions, limits, i)
  }

  lemma {:induction false} RunInv(states: seq<State>, actions: seq<Action>, limits: Limits, i: nat)
    requires IsRun(states, actions, limits) && i <= |actions|
    ensures Inv(states[i], limits)
  {
    if i > 0 {
      RunInv(states, actions, limits, i - 1);
      assert StepAt(states, actions, limits, i - 1);
      InvPreserved(states[i - 1], actions[i - 1], limits);
    }
  }

  /** In every run: the pending map stays within its limit, its entries belong to live waiters,
      finished handshakes leave none, and no channel is ever sent into twice. */
  lemma PendingIsSound(states: seq<State>, actions: seq<Action>, limits: Limits, i: nat, id: Id)
    requires IsRun(states, actions, limits) && i <= |actions|
    ensures |states[i].pending| <= limits.maxPending
    ensures id in states[i].pending ==> id in states[i].waiters && Live(states[i].waiters[id].phase)
    ensures id in states[i].waiters && states[i].waiters[id].phase.Answered? ==> id !in states[i].pending
    ensures id in states[i].waiters ==> states[i].waiters[id].decisions <= 1
  {
    RunInv(states, actions, limits, i);
    assert EntryOk(states[i], id);
  }

  lemma HandshakeAfter(s: State, a: Action, limits: Limits, id: Id)
    requires Enabled(s, a) && id in s.waiters
    ensures WaiterAfter(s, a, limits, id).handshake == s.waiters[id].handshake
  {
  }

  /** A waiter that is there stays, with the handshake it arrived with. */
  lemma {:induction false} HandshakeStays(states: seq<State>, actions: seq<Action>, limits: Limits,
                                          i: nat, j: nat, id: Id)
    requires IsRun(states, actions, limits) && i <= j <= |actions| && id in states[i].waiters
    ensures id in states[j].waiters && states[j].waiters[id].handshake == states[i].waiters[id].handshake
  {
    if i < j {
      HandshakeStays(states, actions, limits, i, j - 1, id);
      assert StepAt(states, actions, limits, j - 1);
      WaitersAfter(states[j - 1], actions[j - 1], limits, id);
      HandshakeAfter(states[j - 1], actions[j - 1], limits, id);
    }
  }

  /** The step at which a value with acceptance `accepted` was sent to the waiter. */
  ghost predicate DecidedAt(states: seq<State>, actions: seq<Action>, k: int, id: Id, accepted: bool) {
    && 0 <= k < |actions| < |states| && actions[k].SendDecision? && actions[k].r in states[k].responds
    && states[k].responds[actions[k].r].id == id && states[k].responds[actions[k].r].accepted == accepted
    && id in states[k].waiters
  }

  lemma {:induction false} DecisionWasSent(states: seq<State>, actions: seq<Action>, limits: Limits, i: nat, id: Id)
    requires IsRun(states, actions, limits) && i <= |actions|
    requires id in states[i].waiters && states[i].waiters[id].channel.Decided?
    ensures exists k | 0 <= k < i :: DecidedAt(states, actions, k, id, states[i].waiters[id].channel.accepted)
  {
    var before, a := states[i - 1], actions[i - 1];
    assert StepAt(states, actions, limits, i - 1);
    WaitersAfter(before, a, limits, id);
    if id in before.waiters && before.waiters[id].channel == states[i].waiters[id].channel {
      DecisionWasSent(states, actions, limits, i - 1, id);
    } else {
      assert DecidedAt(states, actions, i - 1, id, states[i].waiters[id].channel.accepted);
    }
  }

  /** The arrival of a waiter, at which the policy was asked. */
  lemma {:induction false} ArrivalOf(states: seq<State>, actions: seq<Action>, limits: Limits, i: nat, id: Id)
    returns (k: nat)
    requires IsRun(states, actions, limits) && i <= |actions| && id in states[i].waiters
    ensures k < i && actions[k].Arrive? && actions[k].id == id
    ensures actions[k].handshake == states[i].waiters[id].handshake
  {
    assert StepAt(states, actions, limits, i - 1);
    WaitersAfter(states[i - 1], actions[i - 1], limits, id);
    if id in states[i - 1].waiters {
      k := ArrivalOf(states, actions, limits, i - 1, id);
    } else {
      k := i - 1;
    }
  }

  /** A session is granted only after an accept for that same request. */
  lemma GrantFollowsAccept(states: seq<State>, actions: seq<Action>, limits: Limits, i: nat, id: Id)
    requires IsRun(states, actions, limits) && i <= |actions|
    requires id in states[i].waiters && states[i].waiters[id].granted
    ensures exists k | 0 <= k < i :: DecidedAt(states, actions, k, id, true)
  {
    RunInv(states, actions, limits, i);
    DecisionWasSent(states, actions, limits, i, id);
  }

  /** The step that answered Approved, which stored the receipt token in an accepted row. */
  ghost predicate TokenStoredAt(states: seq<State>, actions: seq<Action>, k: int, id: Id) {
    && 0 <= k < |actions| < |states|
    && (actions[k] == Own(id, StoreToken(true)) || actions[k] == Own(id, AutoStoreToken(true)))
    && id in states[k].waiters && RowAccepts(states[k].waiters[id])
    && id in states[k + 1].waiters && states[k + 1].waiters[id].row == Some(Row(RowAccepted, true))
  }

  lemma ApprovedNow(s: State, a: Action, limits: Limits, id: Id)
    requires Enabled(s, a) && id in s.waiters && WaiterAfter(s, a, limits, id).phase == Answered(Approved)
    ensures s.waiters[id].phase == Answered(Approved)
      || ((a == Own(id, StoreToken(true)) || a == Own(id, AutoStoreToken(true))) && RowAccepts(s.waiters[id])
          && WaiterAfter(s, a, limits, id).row == Some(Row(RowAccepted, true)))
  {
  }

  lemma {:induction false} TokenWasStored(states: seq<State>, actions: seq<Action>, limits: Limits, i: nat, id: Id)
    returns (k: nat)
    requires IsRun(states, actions, limits) && i <= |actions| && At(states[i], id, Answered(Approved))
    ensures k < i && TokenStoredAt(states, actions, k, id)
  {
    assert StepAt(states, actions, limits, i - 1);
    WaitersAfter(states[i - 1], actions[i - 1], limits, id);
    if id in states[i - 1].waiters {
      ApprovedNow(states[i - 1], actions[i - 1], limits, id);
      if At(states[i - 1], id, Answered(Approved)) {
        k := TokenWasStored(states, actions, limits, i - 1, id);
      } else {
        k := i - 1;
      }
    } else {
      assert false;
    }
  }

  /** Every Approved answer follows an accept sent for that same request, or an arrival at which the
      policy already allowed it. It was given by storing the receipt token in an accepted row, which
      keeps it until the row is deleted. */
  lemma ApprovedIsEarned(states: seq<State>, actions: seq<Action>, limits: Limits, i: nat, id: Id)
    requires IsRun(states, actions, limits) && i <= |actions| && At(states[i], id, Answered(Approved))
    ensures (exists k | 0 <= k < i :: DecidedAt(states, actions, k, id, true))
      || exists k | 0 <= k < i :: AllowedAt(states, actions, k, id)
    ensures exists k | 0 <= k < i :: TokenStoredAt(states, actions, k, id)
    ensures AcceptedRow(states[i].waiters[id])
    ensures states[i].waiters[id].row.Some? ==> states[i].waiters[id].row.value.hasToken
  {
    RunInv(states, actions, limits, i);
    var stored := TokenWasStored(states, actions, limits, i, id);
    if states[i].waiters[id].granted {
      DecisionWasSent(states, actions, limits, i, id);
    } else {
      var k := ArrivalOf(states, actions, limits, i, id);
      assert StepAt(states, actions, limits, k);
      assert AllowedAt(states, actions, k, id);
    }
  }

  ghost predicate AllowedAt(states: seq<State>, actions: seq<Action>, k: int, id: Id) {
    && 0 <= k < |actions| < |states| && actions[k].Arrive? && actions[k].id == id
    && var h := actions[k].handshake; Policy.Allows(states[k].log, h.transfer, Some(h.endpoint), actions[k].now)
  }

  // ---------------------------------------------------------------- what an approval rests on

  ghost predicate SameGrantee(h: Handshake, c: Policy.Change) {
    c.Grant? && h.transfer == c.transfer && h.endpoint == c.endpoint
  }

  /** The grant was made at step k, by a handshake or by another part of the program. */
  ghost predicate GrantedAt(states: seq<State>, actions: seq<Action>, k: int, c: Policy.Change) {
    && 0 <= k < |actions| < |states|
    && (actions[k] == ChangePolicy(c)
        || (actions[k].Own? && actions[k].move.GrantSession? && actions[k].id in states[k].waiters
            && SameGrantee(states[k].waiters[actions[k].id].handshake, c)))
  }

  lemma {:induction false} GrantOrigin(states: seq<State>, actions: seq<Action>, limits: Limits, i: nat, j: nat)
    returns (k: nat)
    requires IsRun(states, actions, limits) && i <= |actions| && j < |states[i].log|
    ensures k < i && GrantedAt(states, actions, k, states[i].log[j])
  {
    assert StepAt(states, actions, limits, i - 1);
    if j < |states[i - 1].log| {
      assert states[i].log[j] == states[i - 1].log[j];
      k := GrantOrigin(states, actions, limits, i - 1, j);
    } else {
      k := i - 1;
    }
  }

  /** A sender accepted a request for the transfer from the endpoint, or some other part of the
      program approved it explicitly. */
  ghost predicate WasApproved(states: seq<State>, actions: seq<Action>, n: nat,
                              t: Policy.Transfer, e: Policy.Endpoint)
  {
    || (exists k, id | 0 <= k < n :: DecidedAt(states, actions, k, id, true)
          && states[k].waiters[id].handshake.transfer == t && states[k].waiters[id].handshake.endpoint == e)
    || (exists k | 0 <= k < n :: 0 <= k < |actions| && actions[k].ChangePolicy? && actions[k].change.Grant?
          && actions[k].change.transfer == t && actions[k].change.endpoint == e)
  }

  lemma AcceptOf(states: seq<State>, actions: seq<Action>, limits: Limits, i: nat, id: Id)
    requires IsRun(states, actions, limits) && i <= |actions|
    requires id in states[i].waiters && states[i].waiters[id].granted
    ensures var h := states[i].waiters[id].handshake; WasApproved(states, actions, i, h.transfer, h.endpoint)
  {
    GrantFollowsAccept(states, actions, limits, i, id);
    var k: int :| 0 <= k < i && DecidedAt(states, actions, k, id, true);
    HandshakeStays(states, actions, limits, k, i, id);
  }

  lemma GrantRestsOnApproval(states: seq<State>, actions: seq<Action>, limits: Limits, k: nat, c: Policy.Change)
    requires IsRun(states, actions, limits) && GrantedAt(states, actions, k, c) && c.Grant?
    ensures WasApproved(states, actions, k + 1, c.transfer, c.endpoint)
  {
    if actions[k] != ChangePolicy(c) {
      var id := actions[k].id;
      assert StepAt(states, actions, limits, k);
      WaitersAfter(states[k], actions[k], limits, id);
      HandshakeStays(states, actions, limits, k, k + 1, id);
      AcceptOf(states, actions, limits, k + 1, id);
    }
  }

  /** Every Approved answer for a transfer that was not public when the handshake arrived rests on an
      accept for that transfer and endpoint, or on an explicit approval. */
  lemma ApprovedRestsOnApproval(states: seq<State>, actions: seq<Action>, limits: Limits, i: nat, id: Id, n: nat)
    requires IsRun(states, actions, limits) && i <= |actions| && At(states[i], id, Answered(Approved))
    requires n < i && actions[n].Arrive? && actions[n].id == id
    requires Policy.ModeAfter(states[n].log, actions[n].handshake.transfer) != Some(Policy.Public)
    ensures WasApproved(states, actions, i, actions[n].handshake.transfer, actions[n].handshake.endpoint)
  {
    var h := actions[n].handshake;
    RunInv(states, actions, limits, i);
    assert StepAt(states, actions, limits, n);
    HandshakeStays(states, actions, limits, n + 1, i, id);
    if states[i].waiters[id].granted {
      AcceptOf(states, actions, limits, i, id);
    } else {
      var j := Policy.AllowedHasGrant(states[n].log, h.transfer, Some(h.endpoint), actions[n].now);
      var k := GrantOrigin(states, actions, limits, n, j);
      GrantRestsOnApproval(states, actions, limits, k, states[n].log[j]);
    }
  }

  // ---------------------------------------------------------------- answers

  lemma AnsweredStays(s: State, a: Action, limits: Limits, id: Id)
    requires Enabled(s, a) && id in s.waiters && s.waiters[id].phase.Answered?
    ensures WaiterAfter(s, a, limits, id).phase == s.waiters[id].phase
    ensures WaiterAfter(s, a, limits, id).granted == s.waiters[id].granted
  {
  }

  /** An answer is final. */
  lemma {:induction false} AnswerIsFinal(states: seq<State>, actions: seq<Action>, limits: Limits,
                                         i: nat, j: nat, id: Id)
    requires IsRun(states, actions, limits) && i <= j <= |actions|
    requires id in states[i].waiters && states[i].waiters[id].phase.Answered?
    ensures id in states[j].waiters && states[j].waiters[id].phase == states[i].waiters[id].phase
  {
    if i < j {
      AnswerIsFinal(states, actions, limits, i, j - 1, id);
      assert StepAt(states, actions, limits, j - 1);
      WaitersAfter(states[j - 1], actions[j - 1], limits, id);
      AnsweredStays(states[j - 1], actions[j - 1], limits, id);
    }
  }

  predicate DeniedWithSession(w: Waiter) {
    w.phase.Answered? && w.phase.answer.Denied? && w.granted
  }

  /** Storing the token does not succeed: the call fails, or the row was deleted. */
  ghost predicate FailsToStore(s: State, a: Action, id: Id) {
    && a.Own? && a.id == id && a.move.StoreToken? && id in s.waiters
    && (!a.move.ok || s.waiters[id].row.None?)
  }

  lemma DeniedWithSessionAfter(s: State, a: Action, limits: Limits, id: Id)
    requires Inv(s, limits) && Enabled(s, a) && id in s.waiters
    ensures DeniedWithSession(WaiterAfter(s, a, limits, id)) <==>
      DeniedWithSession(s.waiters[id]) || FailsToStore(s, a, id)
  {
    assert WaiterOk(s.waiters[id]);
  }

  ghost predicate TokenLostAt(states: seq<State>, actions: seq<Action>, k: int, id: Id) {
    0 <= k < |actions| < |states| && FailsToStore(states[k], actions[k], id)
  }

  /** A denied receiver has its session exactly when storing its token failed, or its row was deleted
      before: the session is granted first. */
  lemma {:induction false} DeniedKeepsSession(states: seq<State>, actions: seq<Action>, limits: Limits, i: nat, id: Id)
    requires IsRun(states, actions, limits) && i <= |actions|
    ensures id in states[i].waiters && DeniedWithSession(states[i].waiters[id]) <==>
      exists k | 0 <= k < i :: TokenLostAt(states, actions, k, id)
  {
    if i > 0 {
      var n := i - 1;
      var s, a := states[n], actions[n];
      DeniedKeepsSession(states, actions, limits, n, id);
      RunInv(states, actions, limits, n);
      assert StepAt(states, actions, limits, n);
      WaitersAfter(s, a, limits, id);
      if id in s.waiters {
        DeniedWithSessionAfter(s, a, limits, id);
      }
      assert TokenLostAt(states, actions, n, id) <==> FailsToStore(s, a, id);
      assert (exists k | 0 <= k < i :: TokenLostAt(states, actions, k, id)) <==>
        (TokenLostAt(states, actions, n, id) || exists k | 0 <= k < n :: TokenLostAt(states, actions, k, id));
    }
  }

  /** The session such a receiver keeps is in the log of the policy. */
  lemma {:induction false} GrantedIsLogged(states: seq<State>, actions: seq<Action>, limits: Limits, i: nat, id: Id)
    returns (j: nat)
    requires IsRun(states, actions, limits) && i <= |actions|
    requires id in states[i].waiters && states[i].waiters[id].granted
    ensures j < |states[i].log| && SameGrantee(states[i].waiters[id].handshake, states[i].log[j])
  {
    var s, a := states[i - 1], actions[i - 1];
    assert StepAt(states, actions, limits, i - 1);
    WaitersAfter(s, a, limits, id);
    if id in s.waiters && s.waiters[id].granted {
      j := GrantedIsLogged(states, actions, limits, i - 1, id);
    } else {
      j := |s.log|;
    }
  }

  // ---------------------------------------------------------------- an instance

  lemma Extend(states: seq<State>, actions: seq<Action>, limits: Limits, a: Action, next: State)
    returns (states': seq<State>, actions': seq<Action>)
    requires IsRun(states, actions, limits) && Enabled(states[|actions|], a)
    requires next == Step(states[|actions|], a, limits)
    ensures IsRun(states', actions', limits) && states'[|actions'|] == next && actions' == actions + [a]
  {
    states', actions' := states + [next], actions + [a];
    forall i: nat | i < |actions'| ensures StepAt(states', actions', limits, i) {
      assert i < |actions| ==> StepAt(states, actions, limits, i);
    }
  }

  const ASKING := Waiter(Handshake(1, "e", Ok(false), [], Ok(true), false), Asking, Silent, None, false, 0)
  const ASKED := ASKING.(phase := Waiting, row := Some(Row(RowRequested, false)))
  const DECIDED := ASKED.(row := Some(Row(RowAccepted, false)), channel := Decided(true), decisions := 1)

  lemma ReachWaiting(limits: Limits) returns (states: seq<State>, actions: seq<Action>)
    requires limits.maxPending > 0
    ensures IsRun(states, actions, limits) && states[|actions|] == State({0}, map[0 := ASKED], map[], [])
  {
    states, actions := [INITIAL], [];
    states, actions := Extend(states, actions, limits, Arrive(0, ASKING.handshake, 0),
      State({}, map[0 := ASKING], map[], []));
    states, actions := Extend(states, actions, limits, Own(0, Register),
      State({0}, map[0 := ASKING.(phase := Registered)], map[], []));
    states, actions := Extend(states, actions, limits, Own(0, InsertRow(true)), State({0}, map[0 := ASKED], map[], []));
  }

  lemma ReachDecided(limits: Limits) returns (states: seq<State>, actions: seq<Action>)
    requires limits.maxPending > 0
    ensures IsRun(states, actions, limits) && states[|actions|] == State({}, map[0 := DECIDED], map[], [])
  {
    states, actions := ReachWaiting(limits);
    states, actions := Extend(states, actions, limits, BeginRespond(0, 0, true),
      State({}, map[0 := ASKED], map[0 := Respond(0, true, true, Updating)], []));
    var w := ASKED.(row := Some(Row(RowAccepted, false)));
    states, actions := Extend(states, actions, limits, UpdateRow(0, true),
      State({}, map[0 := w], map[0 := Respond(0, true, true, Sending)], []));
    states, actions := Extend(states, actions, limits, SendDecision(0), State({}, map[0 := DECIDED], map[], []));
  }

  /** A run in which a receiver is denied and keeps its session. */
  lemma DeniedMayKeepSession(limits: Limits) returns (states: seq<State>, actions: seq<Action>)
    requires limits.maxPending > 0
    ensures IsRun(states, actions, limits)
    ensures 0 in states[|actions|].waiters && DeniedWithSession(states[|actions|].waiters[0])
  {
    states, actions := ReachDecided(limits);
    var w := DECIDED.(phase := Accepted);
    states, actions := Extend(states, actions, limits, Own(0, ReceiveDecision), State({}, map[0 := w], map[], []));
    w := w.(phase := Granted, granted := true);
    var log := [Policy.Grant(1, "e", Some(9))];
    states, actions := Extend(states, actions, limits, Own(0, GrantSession(9)), State({}, map[0 := w], map[], log));
    w := w.(phase := Answered(Denied("repository-error")));
    states, actions := Extend(states, actions, limits, Own(0, StoreToken(false)), State({}, map[0 := w], map[], log));
  }

  // ---------------------------------------------------------------- the object

  /** The map of pending senders, with one method per critical section on it. */
  class Approvals {
    var pending: set<Id>
    const limits: Limits
    ghost var waiters: map<Id, Waiter>
    ghost var responds: map<Responder, Respond>
    ghost var log: seq<Policy.Change>

    ghost function Snapshot(): State
      reads this
    {
      State(pending, waiters, responds, log)
    }

    ghost predicate Valid()
      reads this
    {
      Inv(Snapshot(), limits)
    }

    constructor (limits: Limits)
      ensures Valid() && Snapshot() == INITIAL && this.limits == limits
    {
      this.limits, pending, waiters, responds, log := limits, {}, map[], map[], [];
    }

    /** `wait_for_sender_decision` takes a place while there is one. */
    method TakePlace(id: Id) returns (r: Result<(), string>)
      requires Valid() && Enabled(Snapshot(), Own(id, Register))
      modifies this
      ensures Valid() && Snapshot() == old(Step(Snapshot(), Own(id, Register), limits))
      ensures r.Ok? <==> old(|pending|) < limits.maxPending
      ensures r.Err? ==> r.error == "too-many-pending-approvals"
    {
      InvPreserved(Snapshot(), Own(id, Register), limits);
      if |pending| >= limits.maxPending {
        waiters := waiters[id := Deny(waiters[id], "too-many-pending-approvals")];
        return Err("too-many-pending-approvals");
      }
      pending := pending + {id};
      waiters := waiters[id := waiters[id].(phase := Registered)];
      return Ok(());
    }

    /** `wait_for_sender_decision` gives its place back after a failed insert or its timeout. */
    method GivePlaceBack(id: Id, ghost m: Move)
      requires Valid() && Enabled(Snapshot(), Own(id, m)) && (m.DropEntry? || m.RemoveEntry?)
      modifies this
      ensures Valid() && Snapshot() == old(Step(Snapshot(), Own(id, m), limits))
    {
      InvPreserved(Snapshot(), Own(id, m), limits);
      waiters := waiters[id := Moved(waiters[id], m, |pending| >= limits.maxPending)];
      pending := pending - {id};
    }

    /** `respond` takes the sender out, if there is one. */
    method TakeSender(ghost r: Responder, target: Id, accepted: bool) returns (held: bool)
      requires Valid() && Enabled(Snapshot(), BeginRespond(r, target, accepted))
      modifies this
      ensures Valid() && Snapshot() == old(Step(Snapshot(), BeginRespond(r, target, accepted), limits))
      ensures held <==> target in old(pending)
    {
      InvPreserved(Snapshot(), BeginRespond(r, target, accepted), limits);
      held := target in pending;
      pending := pending - {target};
      responds := responds[r := Respond(target, accepted, held, Updating)];
    }
  }
}
