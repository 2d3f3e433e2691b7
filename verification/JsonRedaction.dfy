/** Redaction of structured event fields (crates/vnidrop/src/control_plane.rs, `redact_json`). The
    members of an object are listed in the order in which the map iterates; `fp` is the fingerprint
    of a string. */
module JsonRedaction {

  datatype Json = Null | Bool(truth: bool) | Number(number: int) | Text(text: string)
                | Array(items: seq<Json>) | Object(members: seq<Member>)
  datatype Member = Member(key: string, value: Json)

  const REDACTED := "[redacted]"

  const SENSITIVE: set<string> := {
    "endpoint_id", "peer_endpoint_id", "sender_endpoint_id", "receiver_endpoint_id", "from_endpoint_id",
    "remote_endpoint_id", "local_endpoint_id", "ticket", "blob_ticket", "authorization", "capability", "secret",
    "grant", "grant_id", "proof", "mac", "filename", "file_name", "path", "display_name", "transfer_name",
    "sender_display_name", "remote_display_name", "address", "addrs", "relay_url", "relay_urls"
  }

  predicate IsSensitive(key: string) {
    key in SENSITIVE
  }

  function Veil(v: Json, fp: string -> string): Json {
    match v
    case Text(raw) => if raw != "" then Text(fp(raw)) else Text(REDACTED)
    case Null => Null
    case _ => Text(REDACTED)
  }

  function Redact(v: Json, fp: string -> string): Json {
    match v
    case Object(members) =>
      Object(seq(|members|, i requires 0 <= i < |members| =>
        var m := members[i];
        Member(m.key, if IsSensitive(m.key) then Veil(m.value, fp) else Redact(m.value, fp))))
    case Array(items) => Array(seq(|items|, i requires 0 <= i < |items| => Redact(items[i], fp)))
    case _ => v
  }

  // ---------------------------------------------------------------- what the output can tell

  /** Secrets that must look alike: both absent, two strings of one fingerprint, or neither of the two. */
  ghost predicate SecretsAlike(a: Json, b: Json, fp: string -> string) {
    if a.Null? || b.Null? then a.Null? && b.Null?
    else if a.Text? && a.text != "" then b.Text? && b.text != "" && fp(a.text) == fp(b.text)
    else !(b.Text? && b.text != "")
  }

  /** Values that differ in nothing but secrets that look alike. */
  ghost predicate Alike(v: Json, w: Json, fp: string -> string) {
    match v
    case Object(members) =>
      && w.Object? && |w.members| == |members|
      && forall i | 0 <= i < |members| ::
        && w.members[i].key == members[i].key
        && if IsSensitive(members[i].key) then SecretsAlike(members[i].value, w.members[i].value, fp)
           else Alike(members[i].value, w.members[i].value, fp)
    case Array(items) =>
      w.Array? && |w.items| == |items| && forall i | 0 <= i < |items| :: Alike(items[i], w.items[i], fp)
    case _ => v == w
  }

  /** Fingerprints are told apart from the placeholder by how they start. */
  ghost predicate IsFingerprint(fp: string -> string) {
    forall s :: |fp(s)| > 0 && fp(s)[0] == '<'
  }

  /** The output tells exactly which secrets look alike: nothing more about them leaks, and
      everything else stays readable. */
  lemma {:induction false} RedactedEqualIffAlike(v: Json, w: Json, fp: string -> string)
    requires IsFingerprint(fp)
    ensures Redact(v, fp) == Redact(w, fp) <==> Alike(v, w, fp)
  {
    var r, s := Redact(v, fp), Redact(w, fp);
    if v.Object? && w.Object? && |v.members| == |w.members| {
      forall i | 0 <= i < |v.members|
        ensures r.members[i] == s.members[i] <==>
          && w.members[i].key == v.members[i].key
          && if IsSensitive(v.members[i].key) then SecretsAlike(v.members[i].value, w.members[i].value, fp)
             else Alike(v.members[i].value, w.members[i].value, fp)
      {
        VeilAlike(v.members[i].value, w.members[i].value, fp);
        RedactedEqualIffAlike(v.members[i].value, w.members[i].value, fp);
      }
      assert r == s <==> r.members == s.members;
    } else if v.Array? && w.Array? && |v.items| == |w.items| {
      forall i | 0 <= i < |v.items| ensures r.items[i] == s.items[i] <==> Alike(v.items[i], w.items[i], fp) {
        RedactedEqualIffAlike(v.items[i], w.items[i], fp);
      }
      assert r == s <==> r.items == s.items;
    } else if (v.Object? && w.Object?) || (v.Array? && w.Array?) {
      assert v.Object? ==> |r.members| != |s.members|;
      assert v.Array? ==> |r.items| != |s.items|;
    }
  }

  lemma VeilAlike(a: Json, b: Json, fp: string -> string)
    requires IsFingerprint(fp)
    ensures Veil(a, fp) == Veil(b, fp) <==> SecretsAlike(a, b, fp)
  {
    assert REDACTED[0] == '[';
    assert a.Text? ==> fp(a.text)[0] == '<';
    assert b.Text? ==> fp(b.text)[0] == '<';
  }

  // ---------------------------------------------------------------- redacting twice

  /** Every secret is absent, or a string whose fingerprint is its own fingerprint. */
  ghost predicate Settled(v: Json, fp: string -> string) {
    match v
    case Object(members) =>
      forall i | 0 <= i < |members| ::
        if IsSensitive(members[i].key) then
          var s := members[i].value;
          s.Null? || (s.Text? && s.text != "" && fp(fp(s.text)) == fp(s.text))
        else Settled(members[i].value, fp)
    case Array(items) => forall i | 0 <= i < |items| :: Settled(items[i], fp)
    case _ => true
  }

  /** Redaction is not idempotent: a second pass fingerprints what the first one left. It changes
      nothing exactly when every secret is settled. */
  lemma {:induction false} RedactTwice(v: Json, fp: string -> string)
    requires IsFingerprint(fp)
    ensures Redact(Redact(v, fp), fp) == Redact(v, fp) <==> Settled(v, fp)
  {
    var r := Redact(v, fp);
    var s := Redact(r, fp);
    if v.Object? {
      forall i | 0 <= i < |v.members|
        ensures s.members[i] == r.members[i] <==>
          if IsSensitive(v.members[i].key) then
            var m := v.members[i].value;
            m.Null? || (m.Text? && m.text != "" && fp(fp(m.text)) == fp(m.text))
          else Settled(v.members[i].value, fp)
      {
        VeilTwice(v.members[i].value, fp);
        RedactTwice(v.members[i].value, fp);
      }
      assert s == r <==> s.members == r.members;
    } else if v.Array? {
      forall i | 0 <= i < |v.items| ensures s.items[i] == r.items[i] <==> Settled(v.items[i], fp) {
        RedactTwice(v.items[i], fp);
      }
      assert s == r <==> s.items == r.items;
    }
  }

  lemma VeilTwice(m: Json, fp: string -> string)
    requires IsFingerprint(fp)
    ensures Veil(Veil(m, fp), fp) == Veil(m, fp) <==>
      m.Null? || (m.Text? && m.text != "" && fp(fp(m.text)) == fp(m.text))
  {
    assert REDACTED[0] == '[' && fp(REDACTED)[0] == '<';
    assert m.Text? ==> fp(m.text)[0] == '<';
  }

  /** An instance: the placeholder of a secret that is no string is fingerprinted the second time. */
  lemma BooleanSecret(fp: string -> string)
    requires IsFingerprint(fp)
    ensures var v := Object([Member("secret", Bool(true))]); Redact(Redact(v, fp), fp) != Redact(v, fp)
  {
    var v := Object([Member("secret", Bool(true))]);
    assert IsSensitive(v.members[0].key);
    RedactTwice(v, fp);
  }
}
