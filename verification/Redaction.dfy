/** Redaction of free-form error and log text (crates/vnidrop/src/control_plane.rs, `redact_text` and
    `collapse_long_hex`). Texts are sequences of Unicode scalar values. */
module Redaction {
  import opened Common
  import opened Utf8

  type Text = seq<Scalar>

  const REDACTED: seq<Byte> := [0x5b, 0x72, 0x65, 0x64, 0x61, 0x63, 0x74, 0x65, 0x64, 0x5d]    // [redacted]

  predicate IsHex(c: int) {
    0x30 <= c <= 0x39 || 0x41 <= c <= 0x46 || 0x61 <= c <= 0x66
  }

  /** `char::is_whitespace` */
  predicate IsWhitespace(c: Scalar) {
    0x09 <= c <= 0x0d || 0x2000 <= c <= 0x200a
    || c in {0x20, 0x85, 0xa0, 0x1680, 0x2028, 0x2029, 0x202f, 0x205f, 0x3000}
  }

  /** The characters these predicates hold of, one by one. */
  lemma HexDigits(c: int)
    ensures IsHex(c) <==> c as int in {
      0x30, 0x31, 0x32, 0x33, 0x34, 0x35, 0x36, 0x37, 0x38, 0x39,
      0x41, 0x42, 0x43, 0x44, 0x45, 0x46, 0x61, 0x62, 0x63, 0x64, 0x65, 0x66}
  {
  }

  lemma WhiteSpace(c: Scalar)
    ensures IsWhitespace(c) <==> c as int in {
      0x09, 0x0a, 0x0b, 0x0c, 0x0d, 0x20, 0x85, 0xa0, 0x1680, 0x2000, 0x2001, 0x2002, 0x2003, 0x2004, 0x2005, 0x2006,
      0x2007, 0x2008, 0x2009, 0x200a, 0x2028, 0x2029, 0x202f, 0x205f, 0x3000}
  {
  }

  // ---------------------------------------------------------------- what must not appear

  predicate TicketAt(s: seq<int>, i: nat) {
    i + 5 <= |s| && s[i] == 0x76 && s[i + 1] == 0x6e && s[i + 2] == 0x64 && s[i + 3] == 0x31 && s[i + 4] == 0x3a
  }

  ghost predicate HasTicket(s: seq<int>) {
    exists i: nat :: TicketAt(s, i)
  }

  /** 32 hex digits in a row, from i on. */
  ghost predicate RunAt(s: seq<int>, i: nat) {
    i + 32 <= |s| && forall k | i <= k < i + 32 :: IsHex(s[k])
  }

  ghost predicate HasLongHex(s: seq<int>) {
    exists i: nat :: RunAt(s, i)
  }

  // ---------------------------------------------------------------- first pass: tickets

  /** `find` */
  function FindTicket(s: Text): (r: Option<nat>)
    ensures r.Some? ==> r.value + 5 <= |s|
  {
    if |s| < 5 then None
    else if TicketAt(s, 0) then Some(0)
    else
      var r := FindTicket(s[1..]);
      if r.None? then None else Some(r.value + 1)
  }

  /** The index found is the first ticket. */
  lemma {:induction false} FindsFirst(s: Text, i: nat)
    ensures FindTicket(s).Some? && i < FindTicket(s).value ==> !TicketAt(s, i)
    ensures FindTicket(s).Some? ==> TicketAt(s, FindTicket(s).value)
    ensures FindTicket(s).None? ==> !TicketAt(s, i)
  {
    if |s| >= 5 && !TicketAt(s, 0) {
      var rest := s[1..];
      FindsFirst(rest, if i > 0 then i - 1 else 0);
      assert i > 0 ==> TicketAt(s, i) == TicketAt(rest, i - 1);
      var r := FindTicket(rest);
      assert r.Some? ==> TicketAt(s, r.value + 1) == TicketAt(rest, r.value);
    }
  }

  function SkipToken(s: Text): (r: Text)
    ensures |r| <= |s|
  {
    if s == [] || IsWhitespace(s[0]) || s[0] == 0x22 || s[0] == 0x27 then s else SkipToken(s[1..])
  }

  function RedactTickets(s: Text): Text
    decreases |s|
  {
    match FindTicket(s)
    case None => s
    case Some(i) => s[..i] + REDACTED + RedactTickets(SkipToken(s[i + 5..]))
  }

  /** A replacement between two texts joins them into no new ticket. */
  lemma JoinHasNoTicket(x: seq<int>, y: seq<int>)
    requires !HasTicket(x) && !HasTicket(y)
    ensures !HasTicket(x + REDACTED + y)
  {
    var s := x + REDACTED + y;
    forall i: nat ensures !TicketAt(s, i) {
      if i + 5 <= |x| {
        assert TicketAt(s, i) == TicketAt(x, i);
      } else if i >= |x| + 10 {
        assert TicketAt(s, i) == TicketAt(y, i - |x| - 10);
      } else {
        assert forall k | 0 <= k < 10 :: s[|x| + k] == REDACTED[k];
      }
    }
  }

  lemma {:induction false} NoTicketLeft(s: Text)
    ensures !HasTicket(RedactTickets(s))
    decreases |s|
  {
    var found := FindTicket(s);
    if found.Some? {
      var i := found.value;
      forall j: nat ensures !TicketAt(s[..i], j) {
        FindsFirst(s, j);
        assert TicketAt(s[..i], j) ==> TicketAt(s, j);
      }
      NoTicketLeft(SkipToken(s[i + 5..]));
      JoinHasNoTicket(s[..i], RedactTickets(SkipToken(s[i + 5..])));
    } else {
      forall j: nat ensures !TicketAt(s, j) {
        FindsFirst(s, j);
      }
    }
  }

  lemma Regroup(p: seq<int>, x: seq<int>, y: seq<int>)
    ensures p + (x + y) == p + x + y
  {
  }

  // ---------------------------------------------------------------- tickets leave no trace

  const MARK: Text := [0x76, 0x6e, 0x64, 0x31, 0x3a]    // vnd1:

  /** Whitespace and quotes end a ticket. */
  predicate IsStop(c: Scalar) {
    IsWhitespace(c) || c in {0x22, 0x27}
  }

  predicate IsToken(s: Text) {
    forall i | 0 <= i < |s| :: !IsStop(s[i])
  }

  predicate StartsStopped(s: Text) {
    s == [] || IsStop(s[0])
  }

  lemma {:induction false} TokenSkipped(token: Text, b: Text)
    requires IsToken(token) && StartsStopped(b)
    ensures SkipToken(token + b) == b
  {
    if token == [] {
      assert token + b == b;
    } else {
      assert (token + b)[1..] == token[1..] + b;
      TokenSkipped(token[1..], b);
    }
  }

  /** The marker does not overlap itself, so nothing before it makes another ticket with it. */
  lemma FindsMark(a: Text, b: Text)
    requires !HasTicket(a)
    ensures FindTicket(a + MARK + b) == Some(|a|)
  {
    var s := a + MARK + b;
    assert TicketAt(s, |a|) by {
      assert s[|a|..|a| + 5] == MARK;
      assert forall k | 0 <= k < 5 :: s[|a| + k] == MARK[k];
    }
    forall i: nat | i < |a| ensures !TicketAt(s, i) {
      if i + 5 <= |a| {
        assert TicketAt(s, i) == TicketAt(a, i);
      } else {
        assert s[|a|] == MARK[0];
      }
    }
    FindsFirst(s, |a|);
    assert FindTicket(s).value >= |a|;
  }

  /** A ticket is replaced together with its marker, up to the next whitespace or quote. */
  lemma TicketRedacted(a: Text, token: Text, b: Text)
    requires !HasTicket(a) && IsToken(token) && StartsStopped(b)
    ensures RedactTickets(a + MARK + token + b) == a + REDACTED + RedactTickets(b)
  {
    var s := a + MARK + (token + b);
    assert s == a + MARK + token + b;
    FindsMark(a, token + b);
    assert s[..|a|] == a && s[|a| + 5..] == token + b;
    TokenSkipped(token, b);
  }

  /** The text before a ticket, and what follows its marker. */
  datatype Piece = Piece(plain: Text, token: Text)

  function Joined(pieces: seq<Piece>, rest: Text): Text {
    if pieces == [] then rest else pieces[0].plain + MARK + pieces[0].token + Joined(pieces[1..], rest)
  }

  /** The pieces are all the tickets of the text they make up. */
  ghost predicate AreTickets(pieces: seq<Piece>, rest: Text) {
    if pieces == [] then !HasTicket(rest)
    else
      && !HasTicket(pieces[0].plain) && IsToken(pieces[0].token) && StartsStopped(Joined(pieces[1..], rest))
      && AreTickets(pieces[1..], rest)
  }

  lemma SkipSplits(s: Text) returns (token: Text)
    ensures s == token + SkipToken(s) && IsToken(token) && StartsStopped(SkipToken(s))
  {
    if StartsStopped(s) {
      token := [];
    } else {
      var tail := SkipSplits(s[1..]);
      token := [s[0]] + tail;
    }
  }

  lemma FoundSplits(s: Text, i: nat)
    requires FindTicket(s) == Some(i)
    ensures s == s[..i] + MARK + s[i + 5..] && !HasTicket(s[..i])
  {
    FindsFirst(s, i);
    assert s[i..i + 5] == MARK;
    forall j: nat ensures !TicketAt(s[..i], j) {
      FindsFirst(s, j);
      assert TicketAt(s[..i], j) ==> TicketAt(s, j);
    }
  }

  /** Every text is made up of its tickets and what is between them. */
  lemma {:induction false} TicketsOf(s: Text) returns (pieces: seq<Piece>, rest: Text)
    ensures s == Joined(pieces, rest) && AreTickets(pieces, rest)
    decreases |s|
  {
    var found := FindTicket(s);
    if found.None? {
      pieces, rest := [], s;
      forall i: nat ensures !TicketAt(s, i) {
        FindsFirst(s, i);
      }
    } else {
      FoundSplits(s, found.value);
      var plain, after := s[..found.value], s[found.value + 5..];
      var token := SkipSplits(after);
      var others: seq<Piece>;
      others, rest := TicketsOf(SkipToken(after));
      pieces := [Piece(plain, token)] + others;
      Regroup(plain + MARK, token, SkipToken(after));
      assert pieces[1..] == others;
    }
  }

  function Masked(plains: seq<Text>, rest: Text): Text {
    if plains == [] then rest else plains[0] + REDACTED + Masked(plains[1..], rest)
  }

  function Plains(pieces: seq<Piece>): seq<Text> {
    seq(|pieces|, i requires 0 <= i < |pieces| => pieces[i].plain)
  }

  /** Redacting tickets keeps what is between them and nothing else. */
  lemma {:induction false} TicketsMasked(pieces: seq<Piece>, rest: Text)
    requires AreTickets(pieces, rest)
    ensures RedactTickets(Joined(pieces, rest)) == Masked(Plains(pieces), rest)
  {
    if pieces == [] {
      FindsFirst(rest, 0);
      assert FindTicket(rest).None?;
    } else {
      TicketsMasked(pieces[1..], rest);
      assert Plains(pieces)[1..] == Plains(pieces[1..]);
      TicketRedacted(pieces[0].plain, pieces[0].token, Joined(pieces[1..], rest));
    }
  }

  // ---------------------------------------------------------------- second pass: long hex

  /** The length of the leading run of hex digits. */
  function HexRun(b: seq<int>): (n: nat)
    ensures n <= |b| && (forall k | 0 <= k < n :: IsHex(b[k])) && (n < |b| ==> !IsHex(b[n]))
  {
    if b == [] || !IsHex(b[0]) then 0 else 1 + HexRun(b[1..])
  }

  /** The length of what one round of the loop consumes. */
  function Round(b: seq<int>): (n: nat)
    requires b != []
    ensures 1 <= n <= |b|
  {
    if IsHex(b[0]) then HexRun(b) else 1
  }

  predicate IsLongRun(b: seq<int>)
    requires b != []
  {
    IsHex(b[0]) && Round(b) >= 32
  }

  function Collapse(b: seq<Byte>): seq<Byte>
    decreases |b|
  {
    if b == [] then []
    else (if IsLongRun(b) then REDACTED else b[..Round(b)]) + Collapse(b[Round(b)..])
  }

  lemma TicketWithin(x: seq<int>, y: seq<int>, z: seq<int>)
    requires !HasTicket(x + y + z)
    ensures !HasTicket(x) && !HasTicket(z)
  {
    forall i: nat ensures !TicketAt(x, i) && !TicketAt(z, i) {
      assert TicketAt(x, i) ==> TicketAt(x + y + z, i);
      assert TicketAt(z, i) ==> TicketAt(x + y + z, |x| + |y| + i);
    }
  }

  /** The second pass cannot put together a ticket from what the first one left; `p` is the output
      since the last replacement. */
  lemma {:induction false} CollapseMakesNoTicket(p: seq<int>, b: seq<Byte>)
    requires !HasTicket(p + b)
    ensures !HasTicket(p + Collapse(b))
    decreases |b|, 0
  {
    if b != [] {
      var head, rest := b[..Round(b)], b[Round(b)..];
      assert b == head + rest;
      Regroup(p, head, rest);
      if IsLongRun(b) {
        TicketWithin(p, head, rest);
        CollapseAlone(rest);
        JoinHasNoTicket(p, Collapse(rest));
        Regroup(p, REDACTED, Collapse(rest));
      } else {
        CollapseMakesNoTicket(p + head, rest);
        Regroup(p, head, Collapse(rest));
      }
    }
  }

  lemma {:induction false} CollapseAlone(b: seq<Byte>)
    requires !HasTicket(b)
    ensures !HasTicket(Collapse(b))
    decreases |b|, 1
  {
    assert [] + b == b && [] + Collapse(b) == Collapse(b);
    CollapseMakesNoTicket([], b);
  }

  /** `p` ends where no run can continue. */
  ghost predicate Closed(p: seq<int>) {
    p == [] || !IsHex(p[|p| - 1])
  }

  lemma ShortRunAfter(p: seq<int>, h: seq<int>)
    requires !HasLongHex(p) && Closed(p) && |h| < 32
    ensures !HasLongHex(p + h)
  {
    forall i: nat ensures !RunAt(p + h, i) {
      if i + 32 <= |p| {
        assert !RunAt(p, i);
        assert forall k | 0 <= k < |p| :: (p + h)[k] == p[k];
      } else if i < |p| && i + 32 <= |p| + |h| {
        assert (p + h)[|p| - 1] == p[|p| - 1];
      }
    }
  }

  lemma RedactedAfter(p: seq<int>)
    requires !HasLongHex(p) && Closed(p)
    ensures !HasLongHex(p + REDACTED) && Closed(p + REDACTED)
  {
    ShortRunAfter(p, REDACTED);
  }

  /** The second pass leaves no long run; `p` is the output so far. A short run is taken together
      with the character that ends it. */
  lemma {:induction false} CollapseLeavesNoLongHex(p: seq<int>, b: seq<Byte>)
    requires !HasLongHex(p) && Closed(p)
    ensures !HasLongHex(p + Collapse(b))
    decreases |b|
  {
    if b == [] {
      assert p + [] == p;
    } else {
      var head, rest := b[..Round(b)], b[Round(b)..];
      if IsLongRun(b) {
        RedactedAfter(p);
        CollapseLeavesNoLongHex(p + REDACTED, rest);
        Regroup(p, REDACTED, Collapse(rest));
      } else {
        Regroup(p, head, Collapse(rest));
        if !IsHex(b[0]) {
          assert head == [b[0]];
          NonHexAfter(p, b[0]);
          CollapseLeavesNoLongHex(p + head, rest);
        } else {
          ShortRunAfter(p, head);
          AfterShortRun(p + head, rest);
        }
      }
    }
  }

  lemma {:induction false} AfterShortRun(p: seq<int>, b: seq<Byte>)
    requires !HasLongHex(p) && (b == [] || !IsHex(b[0]))
    ensures !HasLongHex(p + Collapse(b))
    decreases |b|
  {
    if b == [] {
      assert p + [] == p;
    } else {
      NonHexAfter(p, b[0]);
      assert b[..1] == [b[0]];
      CollapseLeavesNoLongHex(p + [b[0]], b[1..]);
      Regroup(p, [b[0]], Collapse(b[1..]));
    }
  }

  lemma NonHexAfter(p: seq<int>, c: int)
    requires !HasLongHex(p) && !IsHex(c)
    ensures !HasLongHex(p + [c]) && Closed(p + [c])
  {
    forall i: nat ensures !RunAt(p + [c], i) {
      assert (p + [c])[|p|] == c;
      assert forall k | 0 <= k < |p| :: (p + [c])[k] == p[k];
      assert !RunAt(p, i);
    }
  }

  lemma RunOfSuffix(b: seq<int>, n: nat, i: nat)
    requires n <= |b| && RunAt(b[n..], i)
    ensures RunAt(b, n + i)
  {
    forall k | n + i <= k < n + i + 32 ensures IsHex(b[k]) {
      assert b[n..][k - n] == b[k];
    }
  }

  lemma {:induction false} CollapseKeeps(b: seq<Byte>)
    requires !HasLongHex(b)
    ensures Collapse(b) == b
    decreases |b|
  {
    if b != [] {
      var n := Round(b);
      assert IsLongRun(b) ==> RunAt(b, 0);
      forall i: nat ensures !RunAt(b[n..], i) {
        if RunAt(b[n..], i) { RunOfSuffix(b, n, i); }
      }
      CollapseKeeps(b[n..]);
      assert b == b[..n] + b[n..];
    }
  }

  // ---------------------------------------------------------------- redact_text

  /** The second pass pushes every byte it keeps as a character of its own. */
  function Redact(s: Text): Text {
    Collapse(Encode(RedactTickets(s)))
  }

  lemma CollapseStep(bytes: seq<Byte>, i: nat)
    requires i < |bytes|
    ensures IsHex(bytes[i]) ==> var n := HexRun(bytes[i..]);
      && 1 <= n <= |bytes| - i
      && Collapse(bytes[i..]) == (if n >= 32 then REDACTED else bytes[i..i + n]) + Collapse(bytes[i + n..])
    ensures !IsHex(bytes[i]) ==> Collapse(bytes[i..]) == [bytes[i]] + Collapse(bytes[i + 1..])
  {
    var rest := bytes[i..];
    CollapseRound(rest);
    var n := Round(rest);
    assert rest[..n] == bytes[i..i + n] && rest[n..] == bytes[i + n..];
  }

  lemma CollapseRound(b: seq<Byte>)
    requires b != []
    ensures IsHex(b[0]) ==> var n := HexRun(b);
      n >= 1 && Collapse(b) == (if n >= 32 then REDACTED else b[..n]) + Collapse(b[n..])
    ensures !IsHex(b[0]) ==> Collapse(b) == [b[0]] + Collapse(b[1..])
  {
    assert b[..1] == [b[0]];
  }

  /** The inner loop: past the hex digits that start at `start`. */
  method ScanHex(bytes: seq<Byte>, start: nat) returns (i: nat)
    requires start <= |bytes|
    ensures i == start + HexRun(bytes[start..])
  {
    i := start;
    while i < |bytes| && IsHex(bytes[i])
      invariant start <= i <= |bytes| && i - start + HexRun(bytes[i..]) == HexRun(bytes[start..])
    {
      assert bytes[i..][1..] == bytes[i + 1..];
      i := i + 1;
    }
  }

  /** One round of the outer loop. */
  method NextPiece(bytes: seq<Byte>, start: nat) returns (i: nat, piece: seq<Byte>)
    requires start < |bytes|
    ensures start < i <= |bytes| && Collapse(bytes[start..]) == piece + Collapse(bytes[i..])
  {
    CollapseStep(bytes, start);
    if IsHex(bytes[start]) {
      i := ScanHex(bytes, start);
      piece := if i - start >= 32 then REDACTED else bytes[start..i];
    } else {
      i := start + 1;
      piece := [bytes[start]];
    }
  }

  method CollapseLongHex(bytes: seq<Byte>) returns (out: seq<Byte>)
    ensures out == Collapse(bytes)
  {
    out := [];
    var i := 0;
    assert bytes[0..] == bytes;
    while i < |bytes|
      invariant i <= |bytes| && out + Collapse(bytes[i..]) == Collapse(bytes)
    {
      var piece: seq<Byte>;
      i, piece := NextPiece(bytes, i);
      Regroup(out, piece, Collapse(bytes[i..]));
      out := out + piece;
    }
  }

  lemma TicketStep(s: Text)
    requires FindTicket(s).Some?
    ensures var i := FindTicket(s).value;
      RedactTickets(s) == s[..i] + REDACTED + RedactTickets(SkipToken(s[i + 5..]))
  {
  }

  method RedactText(input: Text) returns (r: Text)
    ensures r == Redact(input)
  {
    var out: Text, rest: Text := [], input;
    var found := FindTicket(rest);
    ghost var whole := RedactTickets(input);
    while found.Some?
      invariant found == FindTicket(rest) && out + RedactTickets(rest) == whole
      decreases |rest|
    {
      var skipped := SkipToken(rest[found.value + 5..]);
      TicketStep(rest);
      Regroup(out, rest[..found.value] + REDACTED, RedactTickets(skipped));
      Regroup(out, rest[..found.value], REDACTED);
      out := out + rest[..found.value] + REDACTED;
      rest := skipped;
      found := FindTicket(rest);
    }
    assert RedactTickets(rest) == rest;
    out := out + rest;
    r := CollapseLongHex(Encode(out));
  }

  // ---------------------------------------------------------------- what the output guarantees

  lemma SameWindow(s: seq<int>, k: nat, t: seq<int>, i: nat)
    requires k + 5 <= |s| && i + 5 <= |t| && s[k..k + 5] == t[i..i + 5]
    ensures TicketAt(s, k) <==> TicketAt(t, i)
  {
    var x, y := s[k..k + 5], t[i..i + 5];
    assert s[k] == x[0] && s[k + 1] == x[1] && s[k + 2] == x[2] && s[k + 3] == x[3] && s[k + 4] == x[4];
    assert t[i] == y[0] && t[i + 1] == y[1] && t[i + 2] == y[2] && t[i + 3] == y[3] && t[i + 4] == y[4];
  }

  lemma EncodedTicket(s: Text)
    requires !HasTicket(s)
    ensures !HasTicket(Encode(s))
  {
    forall i: nat ensures !TicketAt(Encode(s), i) {
      if TicketAt(Encode(s), i) {
        var k := AsciiWindow(s, i, 5);
        SameWindow(s, k, Encode(s), i);
      }
    }
  }

  /** Two texts that differ only in their tickets are redacted to one text. */
  lemma TicketsDoNotShow(a: seq<Piece>, b: seq<Piece>, rest: Text)
    requires AreTickets(a, rest) && AreTickets(b, rest) && Plains(a) == Plains(b)
    ensures Redact(Joined(a, rest)) == Redact(Joined(b, rest))
  {
    TicketsMasked(a, rest);
    TicketsMasked(b, rest);
  }

  lemma {:induction false} HexRunOf(run: seq<int>, b: seq<int>)
    requires (forall i | 0 <= i < |run| :: IsHex(run[i])) && (b == [] || !IsHex(b[0]))
    ensures HexRun(run + b) == |run|
  {
    if run == [] {
      assert run + b == b;
    } else {
      assert (run + b)[1..] == run[1..] + b;
      HexRunOf(run[1..], b);
    }
  }

  lemma {:induction false} CollapseAfter(a: seq<Byte>, b: seq<Byte>)
    requires !HasLongHex(a) && Closed(a)
    ensures Collapse(a + b) == a + Collapse(b)
    decreases |a|
  {
    if a == [] {
      assert a + b == b;
    } else {
      var head, tail := a[..Round(a)], a[Round(a)..];
      CollapseFront(a, b);
      TailStaysClean(a, Round(a));
      CollapseAfter(tail, b);
      Regroup(head, tail, Collapse(b));
      assert a == head + tail;
    }
  }

  lemma CollapseFront(a: seq<Byte>, b: seq<Byte>)
    requires a != [] && !HasLongHex(a) && Closed(a)
    ensures Collapse(a + b) == a[..Round(a)] + Collapse(a[Round(a)..] + b)
  {
    var n := Round(a);
    RoundAfter(a, b);
    CollapseShort(a + b);
    assert (a + b)[..n] == a[..n] && (a + b)[n..] == a[n..] + b;
  }

  lemma TailStaysClean(a: seq<int>, n: nat)
    requires !HasLongHex(a) && Closed(a) && n <= |a|
    ensures !HasLongHex(a[n..]) && Closed(a[n..])
  {
    forall i: nat ensures !RunAt(a[n..], i) {
      if RunAt(a[n..], i) { RunOfSuffix(a, n, i); }
    }
    assert a[n..] != [] ==> a[n..][|a| - n - 1] == a[|a| - 1];
  }

  lemma CollapseShort(b: seq<Byte>)
    requires b != [] && !IsLongRun(b)
    ensures Collapse(b) == b[..Round(b)] + Collapse(b[Round(b)..])
  {
  }

  lemma CollapseLong(b: seq<Byte>)
    requires b != [] && IsLongRun(b)
    ensures Collapse(b) == REDACTED + Collapse(b[Round(b)..])
  {
  }

  lemma RoundAfter(a: seq<int>, b: seq<int>)
    requires a != [] && Closed(a)
    ensures Round(a + b) == Round(a) && (!HasLongHex(a) ==> !IsLongRun(a + b))
  {
    assert IsLongRun(a) ==> RunAt(a, 0);
    if IsHex(a[0]) {
      var n := HexRun(a);
      assert n < |a|;
      assert a[..n] + (a[n..] + b) == a + b;
      HexRunOf(a[..n], a[n..] + b);
    }
  }

  /** A run of 32 or more hex digits is replaced as a whole, whichever they are. */
  lemma LongHexCollapsed(a: seq<Byte>, run: seq<Byte>, b: seq<Byte>)
    requires !HasLongHex(a) && Closed(a) && (b == [] || !IsHex(b[0]))
    requires |run| >= 32 && forall i | 0 <= i < |run| :: IsHex(run[i])
    ensures Collapse(a + run + b) == a + REDACTED + Collapse(b)
  {
    assert a + run + b == a + (run + b);
    CollapseAfter(a, run + b);
    HexRunOf(run, b);
    CollapseLong(run + b);
    assert (run + b)[|run|..] == b;
    Regroup(a, REDACTED, Collapse(b));
  }

  /** For every input the output has no ticket and no run of 32 hex digits. */
  lemma RedactedIsClean(s: Text)
    ensures !HasTicket(Redact(s)) && !HasLongHex(Redact(s))
  {
    NoTicketLeft(s);
    EncodedTicket(RedactTickets(s));
    CollapseAlone(Encode(RedactTickets(s)));
    var bytes := Encode(RedactTickets(s));
    CollapseLeavesNoLongHex([], bytes);
    assert [] + Collapse(bytes) == Collapse(bytes);
  }

  lemma HexIsAscii(b: seq<Byte>)
    requires b != []
    ensures Ascii(REDACTED) && (IsHex(b[0]) ==> Ascii(b[..Round(b)]))
  {
  }

  lemma {:induction false} CollapseKeepsNonAscii(b: seq<Byte>)
    ensures Ascii(Collapse(b)) <==> Ascii(b)
    decreases |b|
  {
    if b != [] {
      var head, rest := b[..Round(b)], b[Round(b)..];
      CollapseKeepsNonAscii(rest);
      var out := if IsLongRun(b) then REDACTED else head;
      HexIsAscii(b);
      AsciiConcat(head, rest);
      AsciiConcat(out, Collapse(rest));
      assert b == head + rest;
    }
  }

  lemma AsciiConcat(x: seq<int>, y: seq<int>)
    ensures Ascii(x + y) <==> Ascii(x) && Ascii(y)
  {
    assert forall i | 0 <= i < |x| :: (x + y)[i] == x[i];
    assert forall i | 0 <= i < |y| :: (x + y)[|x| + i] == y[i];
  }

  /** A text is returned unchanged exactly when it is ASCII and there is nothing to redact in it. */
  lemma UnchangedIff(s: Text)
    ensures Redact(s) == s <==> Ascii(s) && !HasTicket(s) && !HasLongHex(s)
  {
    RedactedIsClean(s);
    if !HasTicket(s) && !HasLongHex(s) {
      FindsFirst(s, 0);
      EncodedLength(s);
      if Ascii(s) {
        AsciiEncodesItself(s);
      } else {
        EncodedHex(s);
      }
      CollapseKeeps(Encode(s));
    }
  }

  lemma EncodedHex(s: Text)
    requires !HasLongHex(s)
    ensures !HasLongHex(Encode(s))
  {
    forall i: nat ensures !RunAt(Encode(s), i) {
      if RunAt(Encode(s), i) {
        var k := AsciiWindow(s, i, 32);
        forall j | k <= j < k + 32 ensures IsHex(s[j]) {
          assert s[k..k + 32][j - k] == Encode(s)[i..i + 32][j - k];
        }
        assert RunAt(s, k);
      }
    }
  }

  /** Redacting twice is redacting once exactly when no character outside the tickets is non-ASCII. */
  lemma IdempotentIff(s: Text)
    ensures Redact(Redact(s)) == Redact(s) <==> Ascii(RedactTickets(s))
  {
    var t := RedactTickets(s);
    RedactedIsClean(s);
    UnchangedIff(Redact(s));
    CollapseKeepsNonAscii(Encode(t));
    EncodedLength(t);
    if Ascii(t) {
      AsciiEncodesItself(t);
    }
  }

  lemma {:induction false} AsciiTickets(s: Text)
    requires Ascii(s)
    ensures Ascii(RedactTickets(s))
    decreases |s|
  {
    var found := FindTicket(s);
    if found.Some? {
      var head, tail := s[..found.value], s[found.value + 5..];
      var rest := SkipToken(tail);
      AsciiSkip(tail);
      AsciiTickets(rest);
      AsciiConcat(head, REDACTED);
      AsciiConcat(head + REDACTED, RedactTickets(rest));
      TicketStep(s);
    }
  }

  lemma {:induction false} AsciiSkip(s: Text)
    requires Ascii(s)
    ensures Ascii(SkipToken(s))
  {
    if !(s == [] || IsWhitespace(s[0]) || s[0] == 0x22 || s[0] == 0x27) {
      AsciiSkip(s[1..]);
    }
  }

  lemma IdempotentOnAscii(s: Text)
    requires Ascii(s)
    ensures Redact(Redact(s)) == Redact(s)
  {
    AsciiTickets(s);
    IdempotentIff(s);
  }

  /** An instance of both: the letter U+00E9, which the second pass splits into its two bytes. */
  lemma NonAsciiGrows()
    ensures Redact([0xE9]) != [0xE9] && Redact(Redact([0xE9])) != Redact([0xE9])
  {
    var s: Text := [0xE9];
    assert !Ascii(s) by {
      assert s[0] == 0xE9;
    }
    FindsFirst(s, 0);
    assert FindTicket(s).None?;
    UnchangedIff(s);
    IdempotentIff(s);
  }
}
