/** The transfer draft being composed (linux/src/composer.rs, `TransferDraft`). */
module Composer {
  import opened Common

  datatype ShareSource = ShareSource(value: string, displayName: Option<string>, isDirectory: bool)
  datatype DraftSource = DraftSource(id: nat, source: ShareSource)
  datatype AccessMode = Public | ApprovalRequired
  datatype SelectionMode = Replace | Add
  datatype Phase = Editing | Picking(request: nat, mode: SelectionMode) | Submitting | Closed

  type Sources = seq<DraftSource>

  datatype Draft = Draft(sources: Sources, transferName: string, senderName: string, accessMode: AccessMode,
                         automaticName: bool, phase: Phase, nextRequest: nat, nextSource: nat)

  function New(senderName: string): Draft {
    Draft([], "", senderName, ApprovalRequired, true, Editing, 1, 1)
  }

  datatype Action =
    | ChangeTransferName(name: string)
    | ChangeSenderName(name: string)
    | ChangeAccessMode(accessMode: AccessMode)
    | BeginPick(mode: SelectionMode)
    | CompletePick(request: nat, result: Result<seq<ShareSource>, string>)
    | RemoveSource(id: nat)
    | ClearSources
    | BeginSubmission
    | FinishSubmission(succeeded: bool)
    | Dismiss

  // ---------------------------------------------------------------- names and selections

  /** The name derived from the sources; `many` names several files. */
  function AutomaticName(sources: Sources, many: nat -> string): string {
    if sources == [] then ""
    else if |sources| > 1 then many(|sources|)
    else if sources[0].source.displayName.Some? then sources[0].source.displayName.value
    else ""
  }

  function Named(d: Draft, many: nat -> string): Draft {
    if d.automaticName then d.(transferName := AutomaticName(d.sources, many)) else d
  }

  predicate HasValue(sources: Sources, value: string) {
    exists i | 0 <= i < |sources| :: sources[i].source.value == value
  }

  /** The dedupe loop of `complete_pick`: the selection and the next source id. */
  function Select(selected: Sources, picked: seq<ShareSource>, next: nat): (Sources, nat)
    decreases |picked|
  {
    if picked == [] then (selected, next)
    else if HasValue(selected, picked[0].value) then Select(selected, picked[1..], next)
    else Select(selected + [DraftSource(next, picked[0])], picked[1..], next + 1)
  }

  predicate Mixed(sources: Sources) {
    |sources| > 1 && exists i | 0 <= i < |sources| :: sources[i].source.isDirectory
  }

  function Without(sources: Sources, id: nat): (r: Sources)
    ensures forall s :: s in r <==> s in sources && s.id != id
  {
    if sources == [] then []
    else if sources[0].id == id then Without(sources[1..], id)
    else [sources[0]] + Without(sources[1..], id)
  }

  // ---------------------------------------------------------------- one step

  function Picked(d: Draft, mode: SelectionMode, result: Result<seq<ShareSource>, string>, many: nat -> string): Draft {
    var editing := d.(phase := Editing);
    if result.Err? || result.value == [] then editing
    else
      var (selected, next) := Select(if mode.Replace? then [] else d.sources, result.value, d.nextSource);
      if Mixed(selected) then editing.(nextSource := next)
      else
        var automatic := d.automaticName || mode.Replace?;
        Named(editing.(sources := selected, nextSource := next, automaticName := automatic), many)
  }

  /** `trim` is `str::trim`, which decides whether a name is blank. */
  predicate CanSubmit(d: Draft, trim: string -> string) {
    d.phase.Editing? && d.sources != [] && trim(d.transferName) != ""
  }

  function Step(d: Draft, a: Action, many: nat -> string, trim: string -> string): Draft {
    match a
    case ChangeTransferName(name) => if d.phase.Editing? then d.(automaticName := false, transferName := name) else d
    case ChangeSenderName(name) => if d.phase.Editing? then d.(senderName := name) else d
    case ChangeAccessMode(mode) => if d.phase.Editing? then d.(accessMode := mode) else d
    case BeginPick(mode) =>
      if d.phase.Editing? then d.(nextRequest := d.nextRequest + 1, phase := Picking(d.nextRequest, mode)) else d
    case CompletePick(request, result) =>
      if d.phase.Picking? && d.phase.request == request then Picked(d, d.phase.mode, result, many) else d
    case RemoveSource(id) => if d.phase.Editing? then Named(d.(sources := Without(d.sources, id)), many) else d
    case ClearSources => if d.phase.Editing? then d.(sources := [], automaticName := true, transferName := "") else d
    case BeginSubmission => if CanSubmit(d, trim) then d.(phase := Submitting) else d
    case FinishSubmission(succeeded) =>
      if !d.phase.Submitting? then d
      else if succeeded then d.(phase := Closed, sources := [])
      else d.(phase := Editing)
    case Dismiss => if d.phase.Submitting? then d else d.(phase := Closed, sources := [])
  }

  // ---------------------------------------------------------------- invariant

  ghost predicate DistinctSources(sources: Sources, next: nat) {
    && (forall i, j | 0 <= i < j < |sources| ::
          sources[i].id != sources[j].id && sources[i].source.value != sources[j].source.value)
    && forall s | s in sources :: s.id < next
  }

  ghost predicate Inv(d: Draft, many: nat -> string) {
    && DistinctSources(d.sources, d.nextSource)
    && !Mixed(d.sources) && (d.phase.Closed? ==> d.sources == [])
    && (d.phase.Picking? ==> d.phase.request < d.nextRequest)
    && (d.automaticName && !d.phase.Closed? ==> d.transferName == AutomaticName(d.sources, many))
  }

  lemma {:induction false} SelectAdds(selected: Sources, picked: seq<ShareSource>, next: nat)
    requires DistinctSources(selected, next)
    ensures var (r, n) := Select(selected, picked, next);
      && next <= n && selected <= r && DistinctSources(r, n)
      && forall s | s in r && s !in selected :: s.id >= next && s.source in picked
    decreases |picked|
  {
    if picked != [] {
      var rest := picked[1..];
      assert picked == [picked[0]] + rest;
      if HasValue(selected, picked[0].value) {
        SelectAdds(selected, rest, next);
      } else {
        SelectAdds(selected + [DraftSource(next, picked[0])], rest, next + 1);
      }
    }
  }

  lemma {:induction false} SelectTakesAll(selected: Sources, picked: seq<ShareSource>, next: nat)
    requires DistinctSources(selected, next)
    ensures forall p | p in picked :: HasValue(Select(selected, picked, next).0, p.value)
    decreases |picked|
  {
    if picked != [] {
      var p, rest := picked[0], picked[1..];
      assert picked == [p] + rest;
      var more, n := selected, next;
      if !HasValue(selected, p.value) {
        more, n := selected + [DraftSource(next, p)], next + 1;
        assert more[|selected|].source.value == p.value;
      }
      SelectTakesAll(more, rest, n);
      SelectAdds(more, rest, n);
      KeepsValue(more, Select(more, rest, n).0, p.value);
    }
  }

  /** What the dedupe loop selects: the old selection, then each new value once with a fresh id. */
  lemma SelectDistinct(selected: Sources, picked: seq<ShareSource>, next: nat)
    requires DistinctSources(selected, next)
    ensures var (r, n) := Select(selected, picked, next);
      && next <= n && selected <= r && DistinctSources(r, n)
      && (forall s | s in r && s !in selected :: s.id >= next && s.source in picked)
      && forall p | p in picked :: HasValue(r, p.value)
  {
    SelectAdds(selected, picked, next);
    SelectTakesAll(selected, picked, next);
  }

  lemma KeepsValue(a: Sources, b: Sources, value: string)
    requires a <= b && HasValue(a, value)
    ensures HasValue(b, value)
  {
    var i :| 0 <= i < |a| && a[i].source.value == value;
    assert b[i] == a[i];
  }

  lemma DistinctCons(first: DraftSource, rest: Sources, next: nat)
    requires DistinctSources(rest, next) && first.id < next
    requires forall i | 0 <= i < |rest| :: rest[i].id != first.id && rest[i].source.value != first.source.value
    ensures DistinctSources([first] + rest, next)
  {
    var all := [first] + rest;
    forall i, j | 0 <= i < j < |all| ensures all[i].id != all[j].id && all[i].source.value != all[j].source.value {
      assert all[j] == rest[j - 1] && (i > 0 ==> all[i] == rest[i - 1]);
    }
  }

  lemma {:induction false} WithoutDistinct(sources: Sources, id: nat, next: nat)
    requires DistinctSources(sources, next)
    ensures DistinctSources(Without(sources, id), next) && |Without(sources, id)| <= |sources|
  {
    if sources != [] {
      var first, rest, kept := sources[0], sources[1..], Without(sources[1..], id);
      WithoutDistinct(rest, id, next);
      forall i | 0 <= i < |kept| ensures kept[i].id != first.id && kept[i].source.value != first.source.value {
        assert kept[i] in rest;
        var j :| 0 <= j < |rest| && rest[j] == kept[i];
        assert sources[j + 1] == kept[i];
      }
      DistinctCons(first, kept, next);
    }
  }

  lemma WithoutUnmixed(sources: Sources, id: nat)
    requires !Mixed(sources) && |Without(sources, id)| <= |sources|
    ensures !Mixed(Without(sources, id))
  {
    var r := Without(sources, id);
    forall i | 0 <= i < |r| && |r| > 1 ensures !r[i].source.isDirectory {
      assert r[i] in sources;
    }
  }

  lemma InvPreserved(d: Draft, a: Action, many: nat -> string, trim: string -> string)
    requires Inv(d, many)
    ensures Inv(Step(d, a, many, trim), many)
  {
    match a {
      case CompletePick(request, result) =>
        if d.phase.Picking? && result.Ok? {
          SelectDistinct(if d.phase.mode.Replace? then [] else d.sources, result.value, d.nextSource);
        }
      case RemoveSource(id) =>
        WithoutDistinct(d.sources, id, d.nextSource);
        WithoutUnmixed(d.sources, id);
      case _ =>
    }
  }

  /** New sources get new ids, and the counters only grow. */
  lemma StepIds(d: Draft, a: Action, many: nat -> string, trim: string -> string)
    requires Inv(d, many)
    ensures var d' := Step(d, a, many, trim);
      && d.nextSource <= d'.nextSource && d.nextRequest <= d'.nextRequest
      && forall s | s in d'.sources :: s in d.sources || s.id >= d.nextSource
  {
    if a.CompletePick? && d.phase.Picking? && a.result.Ok? {
      SelectDistinct(if d.phase.mode.Replace? then [] else d.sources, a.result.value, d.nextSource);
    }
  }

  lemma OldIdIsOldSource(d: Draft, a: Action, many: nat -> string, trim: string -> string, s: DraftSource)
    requires Inv(d, many) && s in Step(d, a, many, trim).sources && s.id < d.nextSource
    ensures s in d.sources
  {
    StepIds(d, a, many, trim);
  }

  // ---------------------------------------------------------------- whole runs

  ghost predicate StepAt(drafts: seq<Draft>, actions: seq<Action>, many: nat -> string, trim: string -> string, i: nat)
  {
    i < |actions| < |drafts| && drafts[i + 1] == Step(drafts[i], actions[i], many, trim)
  }

  ghost predicate IsRun(drafts: seq<Draft>, actions: seq<Action>, many: nat -> string, trim: string -> string) {
    && |drafts| == |actions| + 1 && (exists sender :: drafts[0] == New(sender))
    && forall i: nat | i < |actions| :: StepAt(drafts, actions, many, trim, i)
  }

  /** Every reachable draft: distinct values and ids, no directory beside another source, and a
      current automatic name while it is open. */
  lemma {:induction false} RunInv(drafts: seq<Draft>, actions: seq<Action>, many: nat -> string, trim: string -> string,
                                  i: nat)
    requires IsRun(drafts, actions, many, trim) && i <= |actions|
    ensures Inv(drafts[i], many)
  {
    if i > 0 {
      RunInv(drafts, actions, many, trim, i - 1);
      assert StepAt(drafts, actions, many, trim, i - 1);
      InvPreserved(drafts[i - 1], actions[i - 1], many, trim);
    }
  }

  lemma {:induction false} OldIdsAreOldSources(drafts: seq<Draft>, actions: seq<Action>, many: nat -> string,
                                               trim: string -> string, i: nat, j: nat, s: DraftSource)
    requires IsRun(drafts, actions, many, trim) && i <= j <= |actions|
    requires s in drafts[j].sources && s.id < drafts[i].nextSource
    ensures s in drafts[i].sources
  {
    if i < j {
      CountersGrow(drafts, actions, many, trim, i, j - 1);
      RunInv(drafts, actions, many, trim, j - 1);
      assert StepAt(drafts, actions, many, trim, j - 1);
      OldIdIsOldSource(drafts[j - 1], actions[j - 1], many, trim, s);
      OldIdsAreOldSources(drafts, actions, many, trim, i, j - 1, s);
    }
  }

  lemma {:induction false} CountersGrow(drafts: seq<Draft>, actions: seq<Action>, many: nat -> string,
                                        trim: string -> string, i: nat, j: nat)
    requires IsRun(drafts, actions, many, trim) && i <= j <= |actions|
    ensures drafts[i].nextSource <= drafts[j].nextSource && drafts[i].nextRequest <= drafts[j].nextRequest
  {
    if i < j {
      CountersGrow(drafts, actions, many, trim, i, j - 1);
      RunInv(drafts, actions, many, trim, j - 1);
      assert StepAt(drafts, actions, many, trim, j - 1);
      StepIds(drafts[j - 1], actions[j - 1], many, trim);
    }
  }

  /** An id names one source over the whole run, and one that is gone never comes back. */
  lemma IdsNeverReused(drafts: seq<Draft>, actions: seq<Action>, many: nat -> string, trim: string -> string,
                       i: nat, j: nat, k: nat, s: DraftSource, t: DraftSource)
    requires IsRun(drafts, actions, many, trim) && i <= j <= k <= |actions|
    requires s in drafts[i].sources && t in drafts[k].sources && s.id == t.id
    ensures s == t && s in drafts[j].sources
  {
    RunInv(drafts, actions, many, trim, i);
    CountersGrow(drafts, actions, many, trim, i, j);
    OldIdsAreOldSources(drafts, actions, many, trim, i, k, t);
    OldIdsAreOldSources(drafts, actions, many, trim, j, k, t);
  }

  lemma AnsweredAfter(d: Draft, a: Action, many: nat -> string, trim: string -> string, request: nat)
    requires request < d.nextRequest && !(d.phase.Picking? && d.phase.request == request)
    ensures var d' := Step(d, a, many, trim);
      request < d'.nextRequest && !(d'.phase.Picking? && d'.phase.request == request)
  {
  }

  /** Once a request was answered it is never current again, ... */
  lemma {:induction false} RequestStaysAnswered(drafts: seq<Draft>, actions: seq<Action>, many: nat -> string,
                                                trim: string -> string, i: nat, j: nat, request: nat)
    requires IsRun(drafts, actions, many, trim) && i < j <= |actions|
    requires actions[i].CompletePick? && actions[i].request == request
    requires drafts[i].phase.Picking? && drafts[i].phase.request == request
    ensures request < drafts[j].nextRequest && !(drafts[j].phase.Picking? && drafts[j].phase.request == request)
  {
    assert StepAt(drafts, actions, many, trim, j - 1);
    if j == i + 1 {
      RunInv(drafts, actions, many, trim, i);
    } else {
      RequestStaysAnswered(drafts, actions, many, trim, i, j - 1, request);
      AnsweredAfter(drafts[j - 1], actions[j - 1], many, trim, request);
    }
  }

  /** ... so a second answer to it changes nothing. */
  lemma RequestTakesEffectOnce(drafts: seq<Draft>, actions: seq<Action>, many: nat -> string, trim: string -> string,
                               i: nat, j: nat)
    requires IsRun(drafts, actions, many, trim) && i < j < |actions|
    requires actions[i].CompletePick? && actions[j].CompletePick? && actions[i].request == actions[j].request
    requires drafts[i].phase.Picking? && drafts[i].phase.request == actions[i].request
    ensures drafts[j + 1] == drafts[j]
  {
    RequestStaysAnswered(drafts, actions, many, trim, i, j, actions[i].request);
    assert StepAt(drafts, actions, many, trim, j);
  }

  lemma LockedKeeps(d: Draft, a: Action, many: nat -> string, trim: string -> string)
    requires Inv(d, many)
    ensures d.phase.Submitting? && !a.FinishSubmission? ==> Step(d, a, many, trim) == d
    ensures d.phase.Closed? ==> Step(d, a, many, trim) == d
  {
  }

  /** From a successful start of a submission until it finishes, nothing changes the draft. */
  lemma {:induction false} SubmissionLocksDraft(drafts: seq<Draft>, actions: seq<Action>, many: nat -> string,
                                                trim: string -> string, i: nat, j: nat)
    requires IsRun(drafts, actions, many, trim) && i < j <= |actions|
    requires actions[i].BeginSubmission? && CanSubmit(drafts[i], trim)
    requires forall k | i < k < j :: !actions[k].FinishSubmission?
    ensures drafts[j] == drafts[i].(phase := Submitting)
  {
    assert StepAt(drafts, actions, many, trim, j - 1);
    if i < j - 1 {
      SubmissionLocksDraft(drafts, actions, many, trim, i, j - 1);
      RunInv(drafts, actions, many, trim, j - 1);
      LockedKeeps(drafts[j - 1], actions[j - 1], many, trim);
    }
  }

  /** A closed draft is empty and stays as it is. */
  lemma {:induction false} ClosedForGood(drafts: seq<Draft>, actions: seq<Action>, many: nat -> string,
                                         trim: string -> string, i: nat, j: nat)
    requires IsRun(drafts, actions, many, trim) && i <= j <= |actions| && drafts[i].phase.Closed?
    ensures drafts[j] == drafts[i] && drafts[j].sources == []
  {
    RunInv(drafts, actions, many, trim, i);
    if i < j {
      ClosedForGood(drafts, actions, many, trim, i, j - 1);
      assert StepAt(drafts, actions, many, trim, j - 1);
      LockedKeeps(drafts[j - 1], actions[j - 1], many, trim);
    }
  }

  lemma PickingKeeps(d: Draft, a: Action, many: nat -> string, trim: string -> string)
    requires d.phase.Picking? && !a.Dismiss? && !(a.CompletePick? && a.request == d.phase.request)
    ensures Step(d, a, many, trim) == d
  {
  }

  /** While a pick is open nothing but its answer or a dismissal changes the draft. */
  lemma {:induction false} PickLocksDraft(drafts: seq<Draft>, actions: seq<Action>, many: nat -> string,
                                          trim: string -> string, i: nat, j: nat)
    requires IsRun(drafts, actions, many, trim) && i < j <= |actions|
    requires actions[i].BeginPick? && drafts[i].phase.Editing?
    requires forall k | i < k < j ::
      !actions[k].Dismiss? && !(actions[k].CompletePick? && actions[k].request == drafts[i].nextRequest)
    ensures drafts[j] == drafts[i].(
      nextRequest := drafts[i].nextRequest + 1, phase := Picking(drafts[i].nextRequest, actions[i].mode))
  {
    assert StepAt(drafts, actions, many, trim, j - 1);
    if i < j - 1 {
      PickLocksDraft(drafts, actions, many, trim, i, j - 1);
      PickingKeeps(drafts[j - 1], actions[j - 1], many, trim);
    }
  }

  /** A pick that fails or selects nothing leaves the draft as it was before the pick, whatever was tried
      in between; only the request number is used up. */
  lemma FailedPickRestoresDraft(drafts: seq<Draft>, actions: seq<Action>, many: nat -> string,
                                trim: string -> string, i: nat, j: nat)
    requires IsRun(drafts, actions, many, trim) && i < j < |actions|
    requires actions[i].BeginPick? && drafts[i].phase.Editing?
    requires actions[j].CompletePick? && actions[j].request == drafts[i].nextRequest
    requires actions[j].result.Err? || actions[j].result.value == []
    requires forall k | i < k < j ::
      !actions[k].Dismiss? && !(actions[k].CompletePick? && actions[k].request == drafts[i].nextRequest)
    ensures drafts[j + 1] == drafts[i].(nextRequest := drafts[i].nextRequest + 1)
  {
    PickLocksDraft(drafts, actions, many, trim, i, j);
    assert StepAt(drafts, actions, many, trim, j);
  }

  /** Adding anything new to a directory is refused: the selection and the name stay. */
  lemma DirectoryStaysAlone(d: Draft, picked: seq<ShareSource>, p: ShareSource, s: DraftSource,
                            many: nat -> string, trim: string -> string)
    requires Inv(d, many) && d.phase.Picking? && d.phase.mode.Add?
    requires s in d.sources && s.source.isDirectory && p in picked && !HasValue(d.sources, p.value)
    ensures var d' := Step(d, CompletePick(d.phase.request, Ok(picked)), many, trim);
      d'.sources == d.sources && d'.transferName == d.transferName && d'.phase == Editing
  {
    SelectDistinct(d.sources, picked, d.nextSource);
    var r := Select(d.sources, picked, d.nextSource).0;
    var i :| 0 <= i < |d.sources| && d.sources[i] == s;
    assert r[i] == s;
    assert r != d.sources;
    assert Mixed(r);
  }

  // ---------------------------------------------------------------- what a draft holds

  ghost predicate ChangesAccess(drafts: seq<Draft>, actions: seq<Action>, k: int) {
    0 <= k < |actions| < |drafts| && actions[k].ChangeAccessMode? && drafts[k].phase.Editing?
  }

  /** The access mode is the one last chosen while editing; at first every transfer asks for approval. */
  lemma {:induction false} AccessModeIsLatest(drafts: seq<Draft>, actions: seq<Action>, many: nat -> string,
                                              trim: string -> string, i: nat)
    requires IsRun(drafts, actions, many, trim) && i <= |actions|
    ensures (forall k | 0 <= k < i :: !ChangesAccess(drafts, actions, k)) ==> drafts[i].accessMode == ApprovalRequired
    ensures forall k | 0 <= k < i && ChangesAccess(drafts, actions, k)
      && (forall j | k < j < i :: !ChangesAccess(drafts, actions, j)) :: drafts[i].accessMode == actions[k].accessMode
  {
    if i > 0 {
      AccessModeIsLatest(drafts, actions, many, trim, i - 1);
      assert StepAt(drafts, actions, many, trim, i - 1);
      assert !ChangesAccess(drafts, actions, i - 1) ==> drafts[i].accessMode == drafts[i - 1].accessMode;
    }
  }

  ghost predicate ChangesSender(drafts: seq<Draft>, actions: seq<Action>, k: int) {
    0 <= k < |actions| < |drafts| && actions[k].ChangeSenderName? && drafts[k].phase.Editing?
  }

  /** So is the sender name; at first it is the one the draft was made with. */
  lemma {:induction false} SenderNameIsLatest(drafts: seq<Draft>, actions: seq<Action>, many: nat -> string,
                                              trim: string -> string, i: nat, sender: string)
    requires IsRun(drafts, actions, many, trim) && i <= |actions| && drafts[0] == New(sender)
    ensures (forall k | 0 <= k < i :: !ChangesSender(drafts, actions, k)) ==> drafts[i].senderName == sender
    ensures forall k | 0 <= k < i && ChangesSender(drafts, actions, k)
      && (forall j | k < j < i :: !ChangesSender(drafts, actions, j)) :: drafts[i].senderName == actions[k].name
  {
    if i > 0 {
      SenderNameIsLatest(drafts, actions, many, trim, i - 1, sender);
      assert StepAt(drafts, actions, many, trim, i - 1);
      assert !ChangesSender(drafts, actions, i - 1) ==> drafts[i].senderName == drafts[i - 1].senderName;
    }
  }

  ghost predicate EditsName(drafts: seq<Draft>, actions: seq<Action>, k: int) {
    0 <= k < |actions| < |drafts| && actions[k].ChangeTransferName? && drafts[k].phase.Editing?
  }

  /** The current request is answered with a new selection. */
  predicate IsAnswer(d: Draft, a: Action, mode: SelectionMode) {
    && a.CompletePick? && a.result.Ok? && a.result.value != []
    && d.phase.Picking? && d.phase.request == a.request && d.phase.mode == mode
  }

  /** The selection is cleared, or replaced by one that is not refused. */
  ghost predicate ResetsName(drafts: seq<Draft>, actions: seq<Action>, k: int) {
    && 0 <= k < |actions| < |drafts|
    && ((actions[k].ClearSources? && drafts[k].phase.Editing?)
        || (IsAnswer(drafts[k], actions[k], Replace)
            && !Mixed(Select([], actions[k].result.value, drafts[k].nextSource).0)))
  }

  lemma NameAfter(d: Draft, a: Action, many: nat -> string, trim: string -> string)
    requires Inv(d, many) && !(a.ChangeTransferName? && d.phase.Editing?) && !(a.ClearSources? && d.phase.Editing?)
    requires !(IsAnswer(d, a, Replace) && !Mixed(Select([], a.result.value, d.nextSource).0))
    ensures var d' := Step(d, a, many, trim);
      d'.automaticName == d.automaticName && (!d.automaticName ==> d'.transferName == d.transferName)
  {
  }

  /** An edited name stays until the selection is cleared or replaced; otherwise the name is the automatic
      one. */
  lemma {:induction false} EditedNameStays(drafts: seq<Draft>, actions: seq<Action>, many: nat -> string,
                                           trim: string -> string, i: nat)
    requires IsRun(drafts, actions, many, trim) && i <= |actions|
    ensures forall k | 0 <= k < i && EditsName(drafts, actions, k)
      && (forall j | k < j < i :: !EditsName(drafts, actions, j) && !ResetsName(drafts, actions, j)) ::
        !drafts[i].automaticName && drafts[i].transferName == actions[k].name
    ensures forall k | 0 <= k < i && ResetsName(drafts, actions, k)
      && (forall j | k < j < i :: !EditsName(drafts, actions, j)) :: drafts[i].automaticName
    ensures (forall k | 0 <= k < i :: !EditsName(drafts, actions, k)) ==> drafts[i].automaticName
  {
    if i > 0 {
      var n := i - 1;
      EditedNameStays(drafts, actions, many, trim, n);
      RunInv(drafts, actions, many, trim, n);
      assert StepAt(drafts, actions, many, trim, n);
      if !EditsName(drafts, actions, n) && !ResetsName(drafts, actions, n) {
        NameAfter(drafts[n], actions[n], many, trim);
      } else if ResetsName(drafts, actions, n) {
        assert drafts[i].automaticName;
      }
    }
  }

  /** An answer keeps the old selection if it adds and drops it if it replaces; what is picked comes in,
      each value once, unless a directory would have company. */
  lemma AnswerSelects(d: Draft, a: Action, mode: SelectionMode, many: nat -> string, trim: string -> string)
    requires Inv(d, many) && IsAnswer(d, a, mode)
    ensures var kept, d' := if mode.Add? then d.sources else [], Step(d, a, many, trim);
      var selected := Select(kept, a.result.value, d.nextSource).0;
      if |selected| > 1 && exists s | s in selected :: s.source.isDirectory then d'.sources == d.sources
      else
        && kept <= d'.sources && (forall p | p in a.result.value :: HasValue(d'.sources, p.value))
        && forall s | s in d'.sources && s !in kept :: s.id >= d.nextSource && s.source in a.result.value
  {
    SelectDistinct(if mode.Add? then d.sources else [], a.result.value, d.nextSource);
  }

  /** An automatic name is that of the only source, if it has one, or what several are called. */
  lemma AutomaticNameIs(drafts: seq<Draft>, actions: seq<Action>, many: nat -> string, trim: string -> string, i: nat)
    requires IsRun(drafts, actions, many, trim) && i <= |actions|
    requires drafts[i].automaticName && !drafts[i].phase.Closed?
    ensures var d := drafts[i];
      && (d.sources == [] ==> d.transferName == "")
      && (forall s | d.sources == [s] :: d.transferName == if s.source.displayName == None then ""
                                                           else s.source.displayName.value)
      && (|d.sources| >= 2 ==> d.transferName == many(|d.sources|))
  {
    RunInv(drafts, actions, many, trim, i);
  }

  lemma {:induction false} RemovesNone(sources: Sources, id: nat)
    requires forall s | s in sources :: s.id != id
    ensures Without(sources, id) == sources
  {
    if sources != [] {
      RemovesNone(sources[1..], id);
    }
  }

  lemma {:induction false} RemovesAt(sources: Sources, k: nat, id: nat)
    requires k < |sources| && sources[k].id == id
    requires forall j | 0 <= j < |sources| && j != k :: sources[j].id != id
    ensures Without(sources, id) == sources[..k] + sources[k + 1..]
  {
    var rest := sources[1..];
    if k == 0 {
      RemovesNone(rest, id);
      assert sources[..0] + rest == rest;
    } else {
      RemovesAt(rest, k - 1, id);
      RemovedFront(sources, k);
    }
  }

  lemma RemovedFront(sources: Sources, k: nat)
    requires 0 < k < |sources|
    ensures [sources[0]] + (sources[1..][..k - 1] + sources[1..][k..]) == sources[..k] + sources[k + 1..]
  {
  }

  /** Removing takes out the one source with that id and leaves the others in order. */
  lemma RemovesOne(sources: Sources, k: nat, next: nat)
    requires DistinctSources(sources, next) && k < |sources|
    ensures Without(sources, sources[k].id) == sources[..k] + sources[k + 1..]
  {
    RemovesAt(sources, k, sources[k].id);
  }

  /** A failed submission gives the draft back as it was, a successful one closes it. */
  lemma SubmissionEnds(drafts: seq<Draft>, actions: seq<Action>, many: nat -> string, trim: string -> string,
                       i: nat, j: nat)
    requires IsRun(drafts, actions, many, trim) && i < j < |actions|
    requires actions[i].BeginSubmission? && CanSubmit(drafts[i], trim)
    requires actions[j].FinishSubmission? && forall k | i < k < j :: !actions[k].FinishSubmission?
    ensures drafts[j + 1] == if actions[j].succeeded then drafts[i].(phase := Closed, sources := []) else drafts[i]
  {
    SubmissionLocksDraft(drafts, actions, many, trim, i, j);
    assert StepAt(drafts, actions, many, trim, j);
  }

  // ---------------------------------------------------------------- the class

  /** What `begin_submission` hands over. */
  datatype Submission = Submission(
    sources: seq<ShareSource>, transferName: string, senderName: string, accessMode: AccessMode)

  /** The picked sources would put a directory beside another source. */
  predicate IsRefused(d: Draft, picked: seq<ShareSource>)
    requires d.phase.Picking?
  {
    picked != [] && Mixed(Select(if d.phase.mode.Replace? then [] else d.sources, picked, d.nextSource).0)
  }

  class TransferDraft {
    var sources: Sources
    var transferName: string
    var senderName: string
    var accessMode: AccessMode
    var automaticName: bool
    var phase: Phase
    var nextRequest: nat
    var nextSource: nat
    const many: nat -> string
    const trim: string -> string

    function Value(): Draft
      reads this
    {
      Draft(sources, transferName, senderName, accessMode, automaticName, phase, nextRequest, nextSource)
    }

    function After(a: Action): Draft
      reads this
    {
      Step(Value(), a, many, trim)
    }

    constructor (senderName: string, many: nat -> string, trim: string -> string)
      ensures Value() == New(senderName) && this.many == many && this.trim == trim
    {
      sources, transferName, this.senderName, accessMode := [], "", senderName, ApprovalRequired;
      automaticName, phase, nextRequest, nextSource := true, Editing, 1, 1;
      this.many, this.trim := many, trim;
    }

    method ChangeName(name: string)
      modifies this
      ensures Value() == old(After(ChangeTransferName(name)))
    {
      if phase.Editing? {
        automaticName := false;
        transferName := name;
      }
    }

    method ChangeSender(name: string)
      modifies this
      ensures Value() == old(After(ChangeSenderName(name)))
    {
      if phase.Editing? {
        senderName := name;
      }
    }

    method ChangeAccess(mode: AccessMode)
      modifies this
      ensures Value() == old(After(ChangeAccessMode(mode)))
    {
      if phase.Editing? {
        accessMode := mode;
      }
    }

    method Begin(mode: SelectionMode) returns (request: Option<nat>)
      modifies this
      ensures Value() == old(After(BeginPick(mode)))
      ensures request == if old(phase).Editing? then Some(old(nextRequest)) else None
    {
      if !phase.Editing? {
        return None;
      }
      request := Some(nextRequest);
      phase := Picking(nextRequest, mode);
      nextRequest := nextRequest + 1;
    }

    method Complete(request: nat, result: Result<seq<ShareSource>, string>) returns (r: Result<(), string>)
      modifies this
      ensures Value() == old(After(CompletePick(request, result)))
      ensures r.Err? ==> sources == old(sources) && transferName == old(transferName)
      ensures !(old(phase).Picking? && old(phase).request == request) ==> r == Ok(())
      ensures old(phase).Picking? && old(phase).request == request ==>
        r == if result.Err? then Err(result.error)
             else if old(IsRefused(Value(), result.value)) then Err("linux_invalid_selection") else Ok(())
    {
      if !(phase.Picking? && phase.request == request) {
        return Ok(());
      }
      var mode := phase.mode;
      phase := Editing;
      if result.Err? {
        return Err(result.error);
      }
      var picked := result.value;
      if picked == [] {
        return Ok(());
      }
      var selected: Sources := if mode.Replace? then [] else sources;
      ghost var start, next := selected, nextSource;
      for i := 0 to |picked|
        invariant Select(selected, picked[i..], nextSource) == Select(start, picked, next)
        invariant Value() == old(Value()).(phase := Editing, nextSource := nextSource)
      {
        var source := picked[i];
        assert picked[i..][0] == source && picked[i..][1..] == picked[i + 1..];
        if HasValue(selected, source.value) {
          continue;
        }
        selected := selected + [DraftSource(nextSource, source)];
        nextSource := nextSource + 1;
      }
      assert Select(start, picked, next) == (selected, nextSource);
      if Mixed(selected) {
        return Err("linux_invalid_selection");
      }
      sources := selected;
      if mode.Replace? {
        automaticName := true;
      }
      UpdateName();
      return Ok(());
    }

    method UpdateName()
      modifies this`transferName
      ensures Value() == old(Named(Value(), many))
    {
      if automaticName {
        transferName := AutomaticName(sources, many);
      }
    }

    method Remove(id: nat)
      modifies this
      ensures Value() == old(After(RemoveSource(id)))
    {
      if !phase.Editing? {
        return;
      }
      sources := Without(sources, id);
      UpdateName();
    }

    method Clear()
      modifies this
      ensures Value() == old(After(ClearSources))
    {
      if phase.Editing? {
        sources, automaticName, transferName := [], true, "";
      }
    }

    method Submit() returns (s: Option<Submission>)
      modifies this
      ensures Value() == old(After(BeginSubmission))
      ensures s.Some? <==> old(phase).Editing? && old(sources) != [] && trim(old(transferName)) != ""
      ensures s.Some? ==> |s.value.sources| == |sources| && sources == old(sources)
      ensures s.Some? ==> forall i | 0 <= i < |sources| :: s.value.sources[i] == sources[i].source
      ensures s.Some? ==> s.value.accessMode == old(accessMode)
      ensures s.Some? ==> s.value.transferName == trim(old(transferName)) && s.value.senderName == trim(old(senderName))
    {
      if !CanSubmit(Value(), trim) {
        return None;
      }
      phase := Submitting;
      var handed := seq(|sources|, i requires 0 <= i < |sources| reads this => sources[i].source);
      return Some(Submission(handed, trim(transferName), trim(senderName), accessMode));
    }

    method Finish(succeeded: bool)
      modifies this
      ensures Value() == old(After(FinishSubmission(succeeded)))
    {
      if phase.Submitting? {
        phase := Editing;
        if succeeded {
          var _ := DismissDraft();
        }
      }
    }

    method DismissDraft() returns (dismissed: bool)
      modifies this
      ensures Value() == old(After(Dismiss)) && dismissed == !old(phase).Submitting?
    {
      if phase.Submitting? {
        return false;
      }
      phase, sources := Closed, [];
      return true;
    }
  }
}
