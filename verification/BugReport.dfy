/** Log tails and the request limit of bug reports (windows/VniDrop.Core/BugReportDocument.cs and
    BugReportSubmission.cs). Texts are sequences of Unicode scalar values. */
module BugReport {
  import opened Common
  import opened Utf8

  type Text = seq<Scalar>

  const MAX_REQUEST_BYTES := 256 * 1024

  // ---------------------------------------------------------------- the longest fitting suffix

  /** `s` is the longest suffix of `t` that takes at most `n` bytes. */
  ghost predicate IsTail(s: Text, t: Text, n: nat) {
    && IsSuffix(s, t) && |Encode(s)| <= n
    && forall k | 0 <= k < |t| - |s| :: |Encode(t[k..])| > n
  }

  lemma TailUnique(s1: Text, s2: Text, t: Text, n: nat)
    requires IsTail(s1, t, n) && IsTail(s2, t, n)
    ensures s1 == s2
  {
    var k1, k2 := |t| - |s1|, |t| - |s2|;
    assert s1 == t[k1..] && s2 == t[k2..];
  }

  function Tail(t: Text, n: nat): (r: Text)
    ensures IsTail(r, t, n)
  {
    if |Encode(t)| <= n then t
    else
      var r := Tail(t[1..], n);
      assert forall k | 1 <= k < |t| - |r| :: t[k..] == t[1..][k - 1..];
      r
  }

  lemma {:induction false} SuffixIsShorter(t: Text, j: nat, k: nat)
    requires j <= k <= |t|
    ensures |Encode(t[k..])| <= |Encode(t[j..])| && (j < k ==> |Encode(t[k..])| < |Encode(t[j..])|)
    decreases k - j
  {
    if j < k {
      assert t[j..][1..] == t[j + 1..];
      SuffixIsShorter(t, j + 1, k);
    }
  }

  /** A larger budget keeps what a smaller one kept. */
  lemma TailsNest(t: Text, n: nat, m: nat)
    requires n <= m
    ensures IsSuffix(Tail(t, n), Tail(t, m))
  {
    var k, l := |t| - |Tail(t, n)|, |t| - |Tail(t, m)|;
    assert Tail(t, n) == t[k..] && Tail(t, m) == t[l..];
  }

  /** At most three bytes of the budget go unused. */
  lemma TailWastesAtMostThree(t: Text, n: nat)
    requires |Encode(t)| > n
    ensures n - 3 <= |Encode(Tail(t, n))| <= n
  {
    var k := |t| - |Tail(t, n)|;
    assert k > 0;
    assert t[k - 1..][1..] == t[k..];
    assert |Encode(t[k - 1..])| > n;
  }

  // ---------------------------------------------------------------- TakeUtf8Tail

  lemma OffsetIsBoundary(t: Text, k: nat)
    requires k < |t|
    ensures Offset(t, k) < |Encode(t)| && !IsContinuation(Encode(t)[Offset(t, k)])
  {
    CharacterAt(t, k);
    assert Encode(t)[Offset(t, k)] == Encode(t)[Offset(t, k)..Offset(t, k + 1)][0];
  }

  method TakeUtf8Tail(value: Text, maximumBytes: nat) returns (r: Text)
    ensures r == Tail(value, maximumBytes)
  {
    var bytes := Encode(value);
    if |bytes| <= maximumBytes {
      return value;
    }
    var start := |bytes| - maximumBytes;
    while start < |bytes| && IsContinuation(bytes[start])
      invariant |bytes| - maximumBytes <= start <= |bytes|
      invariant forall p | |bytes| - maximumBytes <= p < start :: IsContinuation(bytes[p])
    {
      start := start + 1;
    }
    ghost var k := |value|;
    if start < |bytes| {
      k := StartsCharacter(value, start);
    } else {
      assert value[..|value|] == value;
    }
    SuffixEncoding(value, k);
    DecodeEncoded(value[k..]);
    var decoded := Decode(bytes[start..]);
    r := decoded.value;
    forall j | 0 <= j < k ensures |Encode(value[j..])| > maximumBytes {
      OffsetIsBoundary(value, j);
      SuffixEncoding(value, j);
      SuffixIsShorter(value, j, k);
    }
    TailUnique(r, Tail(value, maximumBytes), value, maximumBytes);
  }

  // ---------------------------------------------------------------- fitting the request

  /** The JSON escape of a text, with an escape length per character. */
  ghost function Escaped(t: Text, escape: Scalar -> nat): nat {
    if t == [] then 0 else escape(t[0]) + Escaped(t[1..], escape)
  }

  lemma {:induction false} EscapedSuffix(t: Text, s: Text, escape: Scalar -> nat)
    requires IsSuffix(s, t)
    ensures Escaped(s, escape) <= Escaped(t, escape)
  {
    if |s| < |t| {
      assert t[1..][|t[1..]| - |s|..] == s;
      EscapedSuffix(t[1..], s, escape);
    }
  }

  method Serialize(logs: Text, rest: nat, escape: Scalar -> nat) returns (size: nat)
    ensures size == rest + Escaped(logs, escape)
  {
    size := rest;
    for i := 0 to |logs|
      invariant size + Escaped(logs[i..], escape) == rest + Escaped(logs, escape)
    {
      assert logs[i..][1..] == logs[i + 1..];
      size := size + escape(logs[i]);
    }
  }

  /** `s` is the longest suffix of the logs whose report stays within the limit. */
  ghost predicate IsBestLogs(s: Text, logs: Text, rest: nat, escape: Scalar -> nat) {
    && IsSuffix(s, logs) && rest + Escaped(s, escape) <= MAX_REQUEST_BYTES
    && forall k | 0 <= k < |logs| - |s| :: rest + Escaped(logs[k..], escape) > MAX_REQUEST_BYTES
  }

  ghost predicate NoneFitFrom(logs: Text, rest: nat, escape: Scalar -> nat, budget: nat) {
    forall n: nat | n >= budget :: rest + Escaped(Tail(logs, n), escape) > MAX_REQUEST_BYTES
  }

  lemma LargerBudgetsOverflow(logs: Text, rest: nat, escape: Scalar -> nat, budget: nat)
    requires rest + Escaped(Tail(logs, budget), escape) > MAX_REQUEST_BYTES
    ensures NoneFitFrom(logs, rest, escape, budget)
  {
    forall n: nat | n >= budget ensures rest + Escaped(Tail(logs, n), escape) > MAX_REQUEST_BYTES {
      TailsNest(logs, budget, n);
      EscapedSuffix(Tail(logs, n), Tail(logs, budget), escape);
    }
  }

  lemma WholeOverflows(logs: Text, rest: nat, escape: Scalar -> nat)
    requires rest + Escaped(logs, escape) > MAX_REQUEST_BYTES
    ensures NoneFitFrom(logs, rest, escape, |Encode(logs)|)
  {
    assert Tail(logs, |Encode(logs)|) == logs;
    LargerBudgetsOverflow(logs, rest, escape, |Encode(logs)|);
  }

  /** The binary search of `Prepare` over byte budgets, for logs that do not fit as a whole; it keeps
      the tail of the largest budget that fits. */
  method SearchBudget(logs: Text, rest: nat, escape: Scalar -> nat) returns (body: Text, size: nat)
    requires rest + Escaped(logs, escape) > MAX_REQUEST_BYTES
    ensures size == rest + Escaped(body, escape)
    ensures size <= MAX_REQUEST_BYTES <==> rest <= MAX_REQUEST_BYTES
    ensures size <= MAX_REQUEST_BYTES ==> IsBestLogs(body, logs, rest, escape)
  {
    body := [];
    size := Serialize([], rest, escape);
    var minimum, maximum := 0, |Encode(logs)|;
    WholeOverflows(logs, rest, escape);
    while minimum <= maximum
      invariant 0 <= minimum <= maximum + 1
      invariant size == rest + Escaped(body, escape)
      invariant minimum == 0 ==> body == []
      invariant minimum > 0 ==> body == Tail(logs, minimum - 1) && size <= MAX_REQUEST_BYTES
      invariant NoneFitFrom(logs, rest, escape, maximum + 1)
    {
      var count := minimum + (maximum - minimum) / 2;
      var candidate := TakeUtf8Tail(logs, count);
      var length := Serialize(candidate, rest, escape);
      if length <= MAX_REQUEST_BYTES {
        body, size, minimum := candidate, length, count + 1;
      } else {
        LargerBudgetsOverflow(logs, rest, escape, count);
        maximum := count - 1;
      }
    }
    LongerDoesNotFit(logs, rest, escape, minimum, body);
  }

  /** The logs part of `Prepare`: `rest` is the size of the report without logs. The report is
      refused only when it would not fit even without logs. */
  method FitLogs(logs: Text, rest: nat, escape: Scalar -> nat) returns (r: Result<Text, string>)
    ensures r.Ok? <==> rest <= MAX_REQUEST_BYTES
    ensures r.Ok? ==> IsBestLogs(r.value, logs, rest, escape)
    ensures r.Err? ==> r.error == "windows_report_text_too_long"
  {
    var body := logs;
    var size := Serialize(logs, rest, escape);
    if size > MAX_REQUEST_BYTES {
      body, size := SearchBudget(logs, rest, escape);
    }
    if size > MAX_REQUEST_BYTES {
      return Err("windows_report_text_too_long");
    }
    return Ok(body);
  }

  /** What the search rules out covers every longer suffix. */
  lemma LongerDoesNotFit(logs: Text, rest: nat, escape: Scalar -> nat, minimum: nat, body: Text)
    requires NoneFitFrom(logs, rest, escape, minimum)
    requires minimum == 0 ==> body == []
    requires minimum > 0 ==> body == Tail(logs, minimum - 1)
    ensures minimum == 0 ==> rest > MAX_REQUEST_BYTES
    ensures IsSuffix(body, logs)
    ensures forall k | 0 <= k < |logs| - |body| :: rest + Escaped(logs[k..], escape) > MAX_REQUEST_BYTES
  {
    if minimum == 0 {
      assert Encode([]) == [];
      assert |Encode(Tail(logs, 0))| == 0 ==> Tail(logs, 0) == [];
    }
    forall k | 0 <= k < |logs| - |body| ensures rest + Escaped(logs[k..], escape) > MAX_REQUEST_BYTES {
      var n := |Encode(logs[k..])|;
      assert n >= minimum;
      forall j | 0 <= j < k ensures |Encode(logs[j..])| > n {
        SuffixIsShorter(logs, j, k);
      }
      TailUnique(logs[k..], Tail(logs, n), logs, n);
    }
  }

  // ---------------------------------------------------------------- Limit

  lemma PrefixGrows(text: Text, i: nat, k: nat)
    requires i <= k <= |text|
    ensures Offset(text, i) <= Offset(text, k)
  {
    assert text[..k] == text[..i] + text[i..k];
    EncodeConcat(text[..i], text[i..k]);
  }

  /** The longest prefix of the trimmed text of at most `maximumBytes` bytes; `trim` is String.Trim. */
  method Limit(text: Text, maximumBytes: nat, trim: Text -> Text) returns (r: Text)
    ensures r <= trim(text) && |Encode(r)| <= maximumBytes
    ensures forall k | |r| < k <= |trim(text)| :: |Encode(trim(text)[..k])| > maximumBytes
  {
    var runes := trim(text);
    r := [];
    var count := 0;
    for i := 0 to |runes|
      invariant r == runes[..i] && count == Offset(runes, i) <= maximumBytes
    {
      var length := |EncodeScalar(runes[i])|;
      CharacterAt(runes, i);
      if count + length > maximumBytes {
        forall k | i < k <= |runes| ensures |Encode(runes[..k])| > maximumBytes {
          PrefixGrows(runes, i + 1, k);
        }
        return;
      }
      assert runes[..i + 1] == runes[..i] + [runes[i]];
      r := r + [runes[i]];
      count := count + length;
    }
  }

  // ---------------------------------------------------------------- the submission

  datatype Draft = Draft(whatHappened: Text, expected: Text, steps: Text, contact: Text, includeLogs: bool)

  /** A prepared report: its id, the installation it names, the logs it carries and its size. */
  datatype Prepared = Prepared(id: string, installId: string, logs: Text, size: nat)

  predicate TooLong(t: Text, n: nat) {
    |Encode(t)| > n
  }

  /** The reasons for refusing a draft before anything is serialised; `trim` is String.Trim. */
  function Refusal(draft: Draft, installation: Option<string>, trim: Text -> Text): Option<string> {
    if trim(draft.whatHappened) == [] || trim(draft.expected) == [] then Some("bug_report_submit_failed")
    else if TooLong(trim(draft.whatHappened), 4000) || TooLong(trim(draft.expected), 4000)
         || TooLong(trim(draft.steps), 4000) || TooLong(trim(draft.contact), 320) then
      Some("windows_report_text_too_long")
    else if installation.None? then Some("bug_report_submit_failed")
    else None
  }

  /** A draft goes on to be prepared exactly if what happened and what was expected are not blank, every
      text is within its bytes and the installation is known. */
  lemma RefusalIff(draft: Draft, installation: Option<string>, trim: Text -> Text)
    ensures Refusal(draft, installation, trim).None? <==>
      && 1 <= |Encode(trim(draft.whatHappened))| <= 4000 && 1 <= |Encode(trim(draft.expected))| <= 4000
      && |Encode(trim(draft.steps))| <= 4000 && |Encode(trim(draft.contact))| <= 320 && installation.Some?
    ensures Refusal(draft, installation, trim) == Some("windows_report_text_too_long") <==>
      && 1 <= |Encode(trim(draft.whatHappened))| && 1 <= |Encode(trim(draft.expected))|
      && (|Encode(trim(draft.whatHappened))| > 4000 || |Encode(trim(draft.expected))| > 4000
          || |Encode(trim(draft.steps))| > 4000 || |Encode(trim(draft.contact))| > 320)
  {
    BlankIff(trim(draft.whatHappened));
    BlankIff(trim(draft.expected));
    assert "bug_report_submit_failed"[0] != "windows_report_text_too_long"[0];
  }

  lemma BlankIff(t: Text)
    ensures t == [] <==> |Encode(t)| < 1
  {
    if t != [] {
      SuffixIsShorter(t, 0, |t|);
      assert t[0..] == t;
    }
  }

  class Submission {
    var preparedDraft: Option<Draft>
    var prepared: Option<Prepared>
    const trim: Text -> Text
    const escape: Scalar -> nat

    ghost predicate Valid()
      reads this
    {
      (preparedDraft.Some? <==> prepared.Some?) && (prepared.Some? ==> prepared.value.size <= MAX_REQUEST_BYTES)
    }

    constructor (trim: Text -> Text, escape: Scalar -> nat)
      ensures Valid() && prepared.None? && this.trim == trim && this.escape == escape
    {
      preparedDraft, prepared, this.trim, this.escape := None, None, trim, escape;
    }

    /** `installation` is the normalised GUID, `id` a new one, `recent` the core logs and `rest` the
        size of this report without logs. */
    method Prepare(draft: Draft, installation: Option<string>, id: string, recent: Text, rest: nat)
      returns (r: Result<Prepared, string>)
      requires Valid()
      modifies this
      ensures Valid()
      ensures r.Ok? ==> r.value.size <= 262_144 && prepared == Some(r.value) && preparedDraft == Some(draft)
      ensures r.Err? ==> prepared == old(prepared) && preparedDraft == old(preparedDraft)
      ensures r.Ok? ==>
        && 1 <= |Encode(trim(draft.whatHappened))| <= 4000 && 1 <= |Encode(trim(draft.expected))| <= 4000
        && |Encode(trim(draft.steps))| <= 4000 && |Encode(trim(draft.contact))| <= 320 && installation.Some?
      ensures Refusal(draft, installation, trim).Some? ==> r == Err(Refusal(draft, installation, trim).value)
      // A retry returns the very same document, whatever changed around the draft.
      ensures Refusal(draft, installation, trim).None? && old(Cached(draft, installation.value)) ==>
        r == Ok(old(prepared.value))
      ensures Refusal(draft, installation, trim).None? && !old(Cached(draft, installation.value)) ==>
        if rest <= 262_144 then r.Ok? else r == Err("windows_report_text_too_long")
      ensures r.Ok? && !old(Cached(draft, installation.value)) ==>
        r.value.id == id && r.value.installId == installation.value
        && r.value.size == rest + Escaped(r.value.logs, escape)
        && IsBestLogs(r.value.logs, if draft.includeLogs then recent else [], rest, escape)
    {
      RefusalIff(draft, installation, trim);
      var refusal := Refusal(draft, installation, trim);
      if refusal.Some? {
        return Err(refusal.value);
      }
      if preparedDraft == Some(draft) && prepared.Some? && prepared.value.installId == installation.value {
        return Ok(prepared.value);
      }
      var logs := if draft.includeLogs then recent else [];
      var fitted := FitLogs(logs, rest, escape);
      if fitted.Err? {
        return Err(fitted.error);
      }
      var size := Serialize(fitted.value, rest, escape);
      preparedDraft := Some(draft);
      prepared := Some(Prepared(id, installation.value, fitted.value, size));
      return Ok(prepared.value);
    }

    predicate Cached(draft: Draft, installId: string)
      reads this
    {
      preparedDraft == Some(draft) && prepared.Some? && prepared.value.installId == installId
    }

    method Clear()
      modifies this
      ensures Valid() && prepared.None?
    {
      prepared, preparedDraft := None, None;
    }
  }
}
