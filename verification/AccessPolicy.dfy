/** Transfer access decisions with expiring approval sessions (crates/vnidrop/src/access_policy.rs).
    Times are milliseconds. */
module AccessPolicy {
  import opened Common

  const APPROVAL_SESSION_TTL_MS := 10 * 60 * 1000

  type Transfer = nat
  type Endpoint = string

  datatype Mode = Public | ApprovalRequired
  datatype Decision = Allow | Deny(reason: string)

  /** No expiry means a session that never lapses. */
  type Expiry = Option<int>

  predicate IsValid(expiry: Expiry, now: int) {
    expiry.None? || expiry.value >= now
  }

  // ---------------------------------------------------------------- the log the policy answers for

  /** `remove_transfer` takes its two locks one after the other, so it is two changes. */
  datatype Change =
    | SetMode(transfer: Transfer, mode: Mode)
    | DropMode(transfer: Transfer)
    | DropSessions(transfer: Transfer)
    | Grant(transfer: Transfer, endpoint: Endpoint, expiry: Expiry)

  ghost function ModeAfter(log: seq<Change>, transfer: Transfer): Option<Mode> {
    if log == [] then None
    else
      var last, before := log[|log| - 1], log[..|log| - 1];
      match last
      case SetMode(t, mode) => if t == transfer then Some(mode) else ModeAfter(before, transfer)
      case DropMode(t) => if t == transfer then None else ModeAfter(before, transfer)
      case _ => ModeAfter(before, transfer)
  }

  /** The newest grant since the sessions of the transfer were last dropped. */
  ghost function GrantAfter(log: seq<Change>, transfer: Transfer, endpoint: Endpoint): Option<Expiry> {
    if log == [] then None
    else
      var last, before := log[|log| - 1], log[..|log| - 1];
      match last
      case Grant(t, e, expiry) =>
        if t == transfer && e == endpoint then Some(expiry) else GrantAfter(before, transfer, endpoint)
      case DropSessions(t) => if t == transfer then None else GrantAfter(before, transfer, endpoint)
      case _ => GrantAfter(before, transfer, endpoint)
  }

  ghost predicate Allows(log: seq<Change>, transfer: Transfer, endpoint: Option<Endpoint>, now: int) {
    match ModeAfter(log, transfer)
    case None => false
    case Some(Public) => true
    case Some(ApprovalRequired) =>
      endpoint.Some? && var g := GrantAfter(log, transfer, endpoint.value); g.Some? && IsValid(g.value, now)
  }

  /** An allowed request rests on a registered mode and, unless public, on an unexpired grant to that
      very endpoint after which the transfer's sessions were not dropped. */
  lemma AllowedHasGrant(log: seq<Change>, transfer: Transfer, endpoint: Option<Endpoint>, now: int) returns (i: nat)
    requires Allows(log, transfer, endpoint, now) && ModeAfter(log, transfer) != Some(Public)
    ensures endpoint.Some? && i < |log| && log[i].Grant?
    ensures log[i].transfer == transfer && log[i].endpoint == endpoint.value && IsValid(log[i].expiry, now)
    ensures forall j | i < j < |log| :: log[j] != DropSessions(transfer)
  {
    i := GrantIndex(log, transfer, endpoint.value);
  }

  lemma {:induction false} GrantIndex(log: seq<Change>, transfer: Transfer, endpoint: Endpoint) returns (i: nat)
    requires GrantAfter(log, transfer, endpoint).Some?
    ensures i < |log| && log[i] == Grant(transfer, endpoint, GrantAfter(log, transfer, endpoint).value)
    ensures forall j | i < j < |log| :: log[j] != DropSessions(transfer)
  {
    var last, before := log[|log| - 1], log[..|log| - 1];
    if last.Grant? && last.transfer == transfer && last.endpoint == endpoint {
      i := |log| - 1;
    } else {
      i := GrantIndex(before, transfer, endpoint);
      assert log == before + [last];
    }
  }

  // ---------------------------------------------------------------- the log, change by change

  predicate ChangesMode(c: Change, transfer: Transfer) {
    (c.SetMode? && c.transfer == transfer) || c == DropMode(transfer)
  }

  predicate ChangesGrant(c: Change, transfer: Transfer, endpoint: Endpoint) {
    (c.Grant? && c.transfer == transfer && c.endpoint == endpoint) || c == DropSessions(transfer)
  }

  /** The change at i is the newest one of the mode. */
  ghost predicate ModeSetAt(log: seq<Change>, i: int, transfer: Transfer, mode: Mode) {
    && 0 <= i < |log| && log[i] == SetMode(transfer, mode)
    && forall j | i < j < |log| :: !ChangesMode(log[j], transfer)
  }

  /** The change at i is the newest one of the session. */
  ghost predicate GrantedAt(log: seq<Change>, i: int, transfer: Transfer, endpoint: Endpoint, expiry: Expiry) {
    && 0 <= i < |log| && log[i] == Grant(transfer, endpoint, expiry)
    && forall j | i < j < |log| :: !ChangesGrant(log[j], transfer, endpoint)
  }

  lemma {:induction false} ModeIff(log: seq<Change>, transfer: Transfer, mode: Mode)
    ensures ModeAfter(log, transfer) == Some(mode) <==> exists i :: ModeSetAt(log, i, transfer, mode)
  {
    if log != [] {
      var n := |log| - 1;
      ModeIff(log[..n], transfer, mode);
      assert ModeSetAt(log, n, transfer, mode) <==> log[n] == SetMode(transfer, mode);
      forall i | 0 <= i < n ensures ModeSetAt(log, i, transfer, mode) <==>
        ModeSetAt(log[..n], i, transfer, mode) && !ChangesMode(log[n], transfer)
      {
        assert forall j | 0 <= j < n :: log[..n][j] == log[j];
      }
    }
  }

  lemma {:induction false} GrantIff(log: seq<Change>, transfer: Transfer, endpoint: Endpoint, expiry: Expiry)
    ensures GrantAfter(log, transfer, endpoint) == Some(expiry) <==>
      exists i :: GrantedAt(log, i, transfer, endpoint, expiry)
  {
    if log != [] {
      var n := |log| - 1;
      GrantIff(log[..n], transfer, endpoint, expiry);
      assert GrantedAt(log, n, transfer, endpoint, expiry) <==> log[n] == Grant(transfer, endpoint, expiry);
      forall i | 0 <= i < n ensures GrantedAt(log, i, transfer, endpoint, expiry) <==>
        GrantedAt(log[..n], i, transfer, endpoint, expiry) && !ChangesGrant(log[n], transfer, endpoint)
      {
        assert forall j | 0 <= j < n :: log[..n][j] == log[j];
      }
    }
  }

  /** The change at i is the newest one of the session, and a grant that is not past its expiry. */
  ghost predicate LiveGrantAt(log: seq<Change>, i: int, transfer: Transfer, endpoint: Endpoint, now: int) {
    && 0 <= i < |log| && log[i].Grant? && log[i].transfer == transfer && log[i].endpoint == endpoint
    && (log[i].expiry.Some? ==> now <= log[i].expiry.value)
    && forall j | i < j < |log| :: !ChangesGrant(log[j], transfer, endpoint)
  }

  lemma LiveIff(log: seq<Change>, transfer: Transfer, endpoint: Endpoint, now: int)
    ensures var g := GrantAfter(log, transfer, endpoint);
      (g.Some? && IsValid(g.value, now)) <==> exists i :: LiveGrantAt(log, i, transfer, endpoint, now)
  {
    var g := GrantAfter(log, transfer, endpoint);
    if g.Some? {
      GrantIff(log, transfer, endpoint, g.value);
      var i :| GrantedAt(log, i, transfer, endpoint, g.value);
      assert IsValid(g.value, now) ==> LiveGrantAt(log, i, transfer, endpoint, now);
    }
    forall i | LiveGrantAt(log, i, transfer, endpoint, now) ensures g == Some(log[i].expiry) {
      assert GrantedAt(log, i, transfer, endpoint, log[i].expiry);
      GrantIff(log, transfer, endpoint, log[i].expiry);
    }
  }

  /** The log allows a request exactly if the newest mode of its transfer is public, or asks for approval
      and the newest change of its session is a grant that is not past its expiry. */
  lemma AllowsIff(log: seq<Change>, transfer: Transfer, endpoint: Option<Endpoint>, now: int)
    ensures Allows(log, transfer, endpoint, now) <==>
      || (exists i :: ModeSetAt(log, i, transfer, Public))
      || ((exists i :: ModeSetAt(log, i, transfer, ApprovalRequired)) && endpoint.Some?
          && exists i :: LiveGrantAt(log, i, transfer, endpoint.value, now))
  {
    ModeIff(log, transfer, Public);
    ModeIff(log, transfer, ApprovalRequired);
    if endpoint.Some? {
      LiveIff(log, transfer, endpoint.value, now);
    }
    match ModeAfter(log, transfer) {
      case None =>
      case Some(Public) =>
      case Some(ApprovalRequired) =>
    }
  }

  // ---------------------------------------------------------------- runs of changes and questions

  datatype Operation = Apply(change: Change) | Ask(transfer: Transfer, endpoint: Option<Endpoint>, now: int)

  ghost function LogOf(run: seq<Operation>): seq<Change> {
    if run == [] then []
    else
      var last, before := run[|run| - 1], run[..|run| - 1];
      if last.Apply? then LogOf(before) + [last.change] else LogOf(before)
  }

  /** The question finds a session that has expired. */
  ghost predicate FindsExpired(before: seq<Operation>, op: Operation, transfer: Transfer, endpoint: Endpoint) {
    && op.Ask? && op.transfer == transfer && op.endpoint == Some(endpoint)
    && ModeAfter(LogOf(before), transfer) == Some(ApprovalRequired)
    && var g := GrantAfter(LogOf(before), transfer, endpoint); g.Some? && !IsValid(g.value, op.now)
  }

  ghost predicate Renews(op: Operation, transfer: Transfer, endpoint: Endpoint) {
    && op.Apply?
    && (op.change == DropSessions(transfer)
        || (op.change.Grant? && op.change.transfer == transfer && op.change.endpoint == endpoint))
  }

  /** Some question found the session expired, and nothing renewed or dropped it since. */
  ghost predicate Pruned(run: seq<Operation>, transfer: Transfer, endpoint: Endpoint) {
    if run == [] then false
    else
      var last, before := run[|run| - 1], run[..|run| - 1];
      || FindsExpired(before, last, transfer, endpoint)
      || (!Renews(last, transfer, endpoint) && Pruned(before, transfer, endpoint))
  }

  /** The question at k found the session expired, and nothing renewed or dropped it since. */
  ghost predicate PrunedAt(run: seq<Operation>, k: nat, transfer: Transfer, endpoint: Endpoint) {
    && k < |run| && FindsExpired(run[..k], run[k], transfer, endpoint)
    && forall m | k < m < |run| :: !Renews(run[m], transfer, endpoint)
  }

  lemma PrunedAtAppend(run: seq<Operation>, op: Operation, k: nat, transfer: Transfer, endpoint: Endpoint)
    requires k < |run|
    ensures PrunedAt(run + [op], k, transfer, endpoint) <==>
      PrunedAt(run, k, transfer, endpoint) && !Renews(op, transfer, endpoint)
  {
    var longer := run + [op];
    assert longer[..k] == run[..k] && longer[|run|] == op;
    assert forall m | 0 <= m < |run| :: longer[m] == run[m];
    if forall m | k < m < |longer| :: !Renews(longer[m], transfer, endpoint) {
      assert forall m | k < m < |run| :: !Renews(longer[m], transfer, endpoint);
    }
  }

  lemma {:induction false} PrunedIff(run: seq<Operation>, transfer: Transfer, endpoint: Endpoint)
    ensures Pruned(run, transfer, endpoint) <==> exists k: nat :: PrunedAt(run, k, transfer, endpoint)
  {
    if run != [] {
      var n := |run| - 1;
      var before, last := run[..n], run[n];
      assert run == before + [last];
      PrunedIff(before, transfer, endpoint);
      assert PrunedAt(run, n, transfer, endpoint) <==> FindsExpired(before, last, transfer, endpoint);
      forall k: nat | k < n
        ensures PrunedAt(run, k, transfer, endpoint) <==>
          PrunedAt(before, k, transfer, endpoint) && !Renews(last, transfer, endpoint)
      {
        PrunedAtAppend(before, last, k, transfer, endpoint);
      }
    }
  }

  /** What the policy answers after a run. */
  ghost function Answer(run: seq<Operation>, transfer: Transfer, endpoint: Option<Endpoint>, now: int): Decision {
    match ModeAfter(LogOf(run), transfer)
    case None => Deny("unknown-transfer")
    case Some(Public) => Allow
    case Some(ApprovalRequired) =>
      if endpoint.None? then Deny("missing-endpoint-id")
      else
        var g := GrantAfter(LogOf(run), transfer, endpoint.value);
        if g.None? || Pruned(run, transfer, endpoint.value) then Deny("approval-required")
        else if IsValid(g.value, now) then Allow
        else Deny("approval-expired")
  }

  /** In every run, whatever the clock does: a request is allowed exactly when the log allows it and,
      unless it is public, no question since the newest grant read a clock past its expiry. */
  lemma AllowedIff(run: seq<Operation>, transfer: Transfer, endpoint: Option<Endpoint>, now: int)
    ensures Answer(run, transfer, endpoint, now).Allow? <==>
      && Allows(LogOf(run), transfer, endpoint, now)
      && (ModeAfter(LogOf(run), transfer) == Some(Public)
          || forall k: nat :: !PrunedAt(run, k, transfer, endpoint.value))
  {
    if endpoint.Some? {
      PrunedIff(run, transfer, endpoint.value);
    }
  }

  ghost predicate ClockNeverStepsBack(run: seq<Operation>) {
    forall i, j | 0 <= i < j < |run| && run[i].Ask? && run[j].Ask? :: run[i].now <= run[j].now
  }

  /** A pruned session had expired by some time already read. */
  lemma {:induction false} PrunedHadExpired(run: seq<Operation>, transfer: Transfer, endpoint: Endpoint)
    returns (k: nat)
    requires Pruned(run, transfer, endpoint)
    ensures k < |run| && run[k].Ask?
    ensures var g := GrantAfter(LogOf(run), transfer, endpoint); g.Some? && !IsValid(g.value, run[k].now)
  {
    var last, before := run[|run| - 1], run[..|run| - 1];
    if FindsExpired(before, last, transfer, endpoint) {
      k := |run| - 1;
    } else {
      k := PrunedHadExpired(before, transfer, endpoint);
      assert last.Apply? ==> LogOf(run)[..|LogOf(run)| - 1] == LogOf(before);
    }
  }

  /** While the clock does not step back pruning cannot be observed: the answer is what the log allows. */
  lemma PruningUnobservable(run: seq<Operation>, transfer: Transfer, endpoint: Option<Endpoint>, now: int)
    requires ClockNeverStepsBack(run + [Ask(transfer, endpoint, now)])
    ensures Answer(run, transfer, endpoint, now).Allow? <==> Allows(LogOf(run), transfer, endpoint, now)
  {
    var all := run + [Ask(transfer, endpoint, now)];
    if endpoint.Some? && Pruned(run, transfer, endpoint.value) {
      var k := PrunedHadExpired(run, transfer, endpoint.value);
      assert all[k] == run[k] && all[|run|].now == now;
    }
  }

  // ---------------------------------------------------------------- the class

  ghost predicate AgreeOnSessions(sessions: map<(Transfer, Endpoint), Expiry>, run: seq<Operation>) {
    && (forall t: Transfer, e: Endpoint ::
          (t, e) in sessions <==> GrantAfter(LogOf(run), t, e).Some? && !Pruned(run, t, e))
    && (forall t: Transfer, e: Endpoint | (t, e) in sessions ::
          GrantAfter(LogOf(run), t, e) == Some(sessions[(t, e)]))
  }

  lemma GrantAgrees(sessions: map<(Transfer, Endpoint), Expiry>, run: seq<Operation>,
                    transfer: Transfer, endpoint: Endpoint, expiry: Expiry)
    requires AgreeOnSessions(sessions, run)
    ensures AgreeOnSessions(sessions[(transfer, endpoint) := expiry], run + [Apply(Grant(transfer, endpoint, expiry))])
  {
    var change := Grant(transfer, endpoint, expiry);
    var run', sessions' := run + [Apply(change)], sessions[(transfer, endpoint) := expiry];
    AfterApply(run, change);
    forall t: Transfer, e: Endpoint
      ensures (t, e) in sessions' <==> GrantAfter(LogOf(run'), t, e).Some? && !Pruned(run', t, e)
      ensures (t, e) in sessions' ==> GrantAfter(LogOf(run'), t, e) == Some(sessions'[(t, e)])
    {
      if t == transfer && e == endpoint {
        assert Renews(Apply(change), t, e);
      } else {
        assert !Renews(Apply(change), t, e);
      }
    }
  }

  class Policy {
    var modes: map<Transfer, Mode>
    var sessions: map<(Transfer, Endpoint), Expiry>
    ghost var run: seq<Operation>

    /** The maps hold the modes in force and the grants in force that were not pruned. */
    ghost predicate Valid()
      reads this
    {
      && (forall t: Transfer :: ModeAfter(LogOf(run), t) == if t in modes then Some(modes[t]) else None)
      && AgreeOnSessions(sessions, run)
    }

    constructor ()
      ensures Valid() && run == []
    {
      modes, sessions, run := map[], map[], [];
    }

    method SetTransferMode(transfer: Transfer, mode: Mode)
      requires Valid()
      modifies this
      ensures Valid() && run == old(run) + [Apply(SetMode(transfer, mode))]
    {
      AfterApply(run, SetMode(transfer, mode));
      modes := modes[transfer := mode];
      run := run + [Apply(SetMode(transfer, mode))];
    }

    /** The first half of `remove_transfer`. */
    method RemoveMode(transfer: Transfer)
      requires Valid()
      modifies this
      ensures Valid() && run == old(run) + [Apply(DropMode(transfer))]
    {
      AfterApply(run, DropMode(transfer));
      modes := modes - {transfer};
      run := run + [Apply(DropMode(transfer))];
    }

    /** The second half of `remove_transfer`. */
    method RemoveSessions(transfer: Transfer)
      requires Valid()
      modifies this
      ensures Valid() && run == old(run) + [Apply(DropSessions(transfer))]
    {
      AfterApply(run, DropSessions(transfer));
      sessions := map key | key in sessions && key.0 != transfer :: sessions[key];
      run := run + [Apply(DropSessions(transfer))];
    }

    method ApproveEndpoint(transfer: Transfer, endpoint: Endpoint, now: int)
      requires Valid()
      modifies this
      ensures Valid() && run == old(run) + [Apply(Grant(transfer, endpoint, Some(now + 600_000)))]
    {
      ApproveEndpointUntil(transfer, endpoint, Some(now + APPROVAL_SESSION_TTL_MS));
    }

    method ApproveEndpointUntil(transfer: Transfer, endpoint: Endpoint, expiry: Expiry)
      requires Valid()
      modifies this
      ensures Valid() && run == old(run) + [Apply(Grant(transfer, endpoint, expiry))]
    {
      AfterApply(run, Grant(transfer, endpoint, expiry));
      GrantAgrees(sessions, run, transfer, endpoint, expiry);
      sessions := sessions[(transfer, endpoint) := expiry];
      run := run + [Apply(Grant(transfer, endpoint, expiry))];
    }

    method Decide(transfer: Transfer, endpoint: Option<Endpoint>, now: int) returns (d: Decision)
      requires Valid()
      modifies this
      ensures Valid() && run == old(run) + [Ask(transfer, endpoint, now)]
      ensures d == Answer(old(run), transfer, endpoint, now)
    {
      AfterAsk(run, Ask(transfer, endpoint, now));
      run := run + [Ask(transfer, endpoint, now)];
      if transfer !in modes {
        return Deny("unknown-transfer");
      }
      if modes[transfer].Public? {
        return Allow;
      }
      if endpoint.None? {
        return Deny("missing-endpoint-id");
      }
      var key := (transfer, endpoint.value);
      if key in sessions {
        if IsValid(sessions[key], now) {
          return Allow;
        }
        sessions := sessions - {key};
        return Deny("approval-expired");
      }
      return Deny("approval-required");
    }
  }

  lemma AfterApply(run: seq<Operation>, change: Change)
    ensures LogOf(run + [Apply(change)]) == LogOf(run) + [change]
    ensures forall t: Transfer ::
      ModeAfter(LogOf(run) + [change], t)
      == if change.SetMode? && change.transfer == t then Some(change.mode)
      else if change == DropMode(t) then None
      else ModeAfter(LogOf(run), t)
    ensures forall t: Transfer, e: Endpoint ::
      GrantAfter(LogOf(run) + [change], t, e)
      == if change.Grant? && change.transfer == t && change.endpoint == e then Some(change.expiry)
      else if change == DropSessions(t) then None
      else GrantAfter(LogOf(run), t, e)
    ensures forall t: Transfer, e: Endpoint ::
      Pruned(run + [Apply(change)], t, e) <==> !Renews(Apply(change), t, e) && Pruned(run, t, e)
  {
    assert (run + [Apply(change)])[..|run|] == run;
    assert (LogOf(run) + [change])[..|LogOf(run)|] == LogOf(run);
  }

  lemma AfterAsk(run: seq<Operation>, op: Operation)
    requires op.Ask?
    ensures LogOf(run + [op]) == LogOf(run)
    ensures forall t: Transfer, e: Endpoint ::
      Pruned(run + [op], t, e) <==> FindsExpired(run, op, t, e) || Pruned(run, t, e)
  {
    assert (run + [op])[..|run|] == run;
  }

  // ---------------------------------------------------------------- whole runs of the class

  method Perform(policy: Policy, op: Operation) returns (answer: Option<Decision>)
    requires policy.Valid()
    modifies policy
    ensures policy.Valid() && policy.run == old(policy.run) + [op]
    ensures answer == if op.Ask? then Some(Answer(old(policy.run), op.transfer, op.endpoint, op.now)) else None
  {
    answer := None;
    match op {
      case Apply(SetMode(t, mode)) => policy.SetTransferMode(t, mode);
      case Apply(DropMode(t)) => policy.RemoveMode(t);
      case Apply(DropSessions(t)) => policy.RemoveSessions(t);
      case Apply(Grant(t, e, expiry)) => policy.ApproveEndpointUntil(t, e, expiry);
      case Ask(t, e, now) =>
        var d := policy.Decide(t, e, now);
        answer := Some(d);
    }
  }

  /** Every answer along every run is the one the operations before it call for. */
  method Replay(run: seq<Operation>) returns (answers: seq<Option<Decision>>)
    ensures |answers| == |run|
    ensures forall i | 0 <= i < |run| && run[i].Ask? ::
      answers[i] == Some(Answer(run[..i], run[i].transfer, run[i].endpoint, run[i].now))
  {
    var policy := new Policy();
    answers := [];
    for n := 0 to |run|
      invariant fresh(policy) && policy.Valid() && policy.run == run[..n]
      invariant |answers| == n
      invariant forall i | 0 <= i < n && run[i].Ask? ::
        answers[i] == Some(Answer(run[..i], run[i].transfer, run[i].endpoint, run[i].now))
    {
      var answer := Perform(policy, run[n]);
      answers := answers + [answer];
      assert run[..n + 1] == run[..n] + [run[n]];
    }
  }

  /** An instance: a question at 11 prunes a session that the log still allows at 5. */
  lemma ClockStepsBack() returns (run: seq<Operation>)
    ensures Answer(run, 1, Some("e"), 5) == Deny("approval-required") && Allows(LogOf(run), 1, Some("e"), 5)
  {
    var granted := [Apply(SetMode(1, ApprovalRequired)), Apply(Grant(1, "e", Some(10)))];
    AfterApply([], SetMode(1, ApprovalRequired));
    AfterApply([Apply(SetMode(1, ApprovalRequired))], Grant(1, "e", Some(10)));
    assert [] + [Apply(SetMode(1, ApprovalRequired))] == [Apply(SetMode(1, ApprovalRequired))];
    assert [Apply(SetMode(1, ApprovalRequired))] + [Apply(Grant(1, "e", Some(10)))] == granted;
    AfterAsk(granted, Ask(1, Some("e"), 11));
    run := granted + [Ask(1, Some("e"), 11)];
  }
}
