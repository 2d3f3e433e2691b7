/** Upload progress of one receiver, folded from transfer events (linux/src/progress.rs,
    `for_receiver`). Events carry their data already parsed. */
module ReceiverProgress {
  import opened Common

  /** data["endpoint_id"]. */
  datatype Endpoint = Missing | Named(id: string) | NotText

  /** `connection` and `request` are the identifiers in the data, `moved` the first number among
      end_offset, offset and transferred. */
  datatype Data = Data(endpoint: Endpoint, connection: Option<string>, request: Option<string>,
                       size: Option<U64>, moved: Option<U64>)

  /** `data` is None when the text of the event does not parse. */
  datatype Event = Event(timestamp: int, transferId: Option<nat>, direction: Option<string>,
                         phase: string, kind: string, data: Option<Data>)

  /** `fingerprint` is the redacted form of the endpoint the core logs. */
  datatype Request = Request(transferId: nat, endpoint: string, fingerprint: string, status: string, requestedAt: int)

  datatype Blob = Blob(size: Option<U64>, bytes: U64, completed: bool, aborted: bool)
  type Stream = (Option<string>, string)
  type Blobs = map<Stream, Blob>

  datatype Progress = Interrupted | Sending(bytes: Option<U64>, total: Option<U64>)

  // ---------------------------------------------------------------- which events count

  predicate Matches(e: Endpoint, r: Request) {
    e.Named? && (e.id == r.endpoint || e.id == r.fingerprint)
  }

  predicate Considered(e: Event, r: Request) {
    e.timestamp >= r.requestedAt && e.data.Some?
  }

  function Connections(events: seq<Event>, r: Request): set<string> {
    set e | e in events && Considered(e, r) && Matches(e.data.value.endpoint, r) && e.data.value.connection.Some? ::
      e.data.value.connection.value
  }

  predicate IsRelevant(e: Event, r: Request, connections: set<string>) {
    && Considered(e, r) && e.transferId == Some(r.transferId) && e.direction == Some("send") && e.phase == "transfer"
    && e.kind in {"started", "progress", "completed", "aborted"}
    && if e.data.value.endpoint.Missing? then
         e.data.value.connection.Some? && e.data.value.connection.value in connections
       else Matches(e.data.value.endpoint, r)
  }

  function Filter(events: seq<Event>, r: Request, connections: set<string>): (f: seq<Event>)
    ensures forall e | e in f :: IsRelevant(e, r, connections)
  {
    if events == [] then []
    else (if IsRelevant(events[0], r, connections) then [events[0]] else []) + Filter(events[1..], r, connections)
  }

  function Relevant(events: seq<Event>, r: Request): (f: seq<Event>)
    ensures forall e | e in f :: e.data.Some? && e.kind in {"started", "progress", "completed", "aborted"}
  {
    Filter(events, r, Connections(events, r))
  }

  // ---------------------------------------------------------------- folding, newest event first

  predicate HasStream(e: Event) {
    e.data.Some? && e.data.value.request.Some?
  }

  function StreamOf(e: Event): Stream
    requires HasStream(e)
  {
    (e.data.value.connection, e.data.value.request.value)
  }

  const FRESH := Blob(None, 0, false, false)

  function Advance(b: Blob, e: Event): Blob
    requires HasStream(e)
  {
    var b1 := if e.data.value.size.Some? then b.(size := e.data.value.size) else b;
    match e.kind
    case "started" => Moved(b1, e.data.value.moved)
    case "progress" => Moved(b1, e.data.value.moved)
    case "completed" => b1.(completed := true)
    case "aborted" => b1.(aborted := true)
    case _ => b1
  }

  function Moved(b: Blob, moved: Option<U64>): Blob {
    b.(bytes := if moved.Some? && moved.value > b.bytes then moved.value else b.bytes, aborted := false)
  }

  function Get(blobs: Blobs, s: Stream): Blob {
    if s in blobs then blobs[s] else FRESH
  }

  /** `events` is newest first, so its head is folded last. */
  function Fold(events: seq<Event>): Blobs
    requires forall e | e in events :: e.data.Some?
  {
    if events == [] then map[]
    else
      var blobs := Fold(events[1..]);
      if HasStream(events[0]) then blobs[StreamOf(events[0]) := Advance(Get(blobs, StreamOf(events[0])), events[0])]
      else blobs
  }

  /** The newest position reported without a request id. */
  function ConnectionProgress(events: seq<Event>): Option<(U64, Option<U64>)>
    requires forall e | e in events :: e.data.Some?
  {
    if events == [] then None
    else if !HasStream(events[0]) && events[0].data.value.moved.Some? then
      Some((events[0].data.value.moved.value, events[0].data.value.size))
    else ConnectionProgress(events[1..])
  }

  /** The events of one stream, in order. */
  ghost function OfStream(events: seq<Event>, s: Stream): seq<Event>
    requires forall e | e in events :: e.data.Some?
  {
    if events == [] then []
    else (if HasStream(events[0]) && StreamOf(events[0]) == s then [events[0]] else []) + OfStream(events[1..], s)
  }

  ghost function BlobOf(stream: seq<Event>): Blob
    requires forall e | e in stream :: HasStream(e)
  {
    if stream == [] then FRESH else Advance(BlobOf(stream[1..]), stream[0])
  }

  lemma {:induction false} OfStreamHasStream(events: seq<Event>, s: Stream)
    requires forall e | e in events :: e.data.Some?
    ensures forall e | e in OfStream(events, s) :: HasStream(e)
  {
    if events != [] {
      OfStreamHasStream(events[1..], s);
    }
  }

  /** Each blob is the fold of its own stream alone. */
  lemma {:induction false} FoldByStream(events: seq<Event>, s: Stream)
    requires forall e | e in events :: e.data.Some?
    ensures forall e | e in OfStream(events, s) :: HasStream(e)
    ensures s in Fold(events) <==> OfStream(events, s) != []
    ensures Get(Fold(events), s) == BlobOf(OfStream(events, s))
  {
    OfStreamHasStream(events, s);
    if events != [] {
      FoldByStream(events[1..], s);
      var rest := OfStream(events[1..], s);
      if HasStream(events[0]) && StreamOf(events[0]) == s {
        assert OfStream(events, s)[1..] == rest;
      } else {
        assert OfStream(events, s) == rest;
      }
    }
  }

  /** How the streams of different blobs interleave cannot show. */
  lemma InterleavingIrrelevant(a: seq<Event>, b: seq<Event>)
    requires forall e | e in a :: e.data.Some?
    requires forall e | e in b :: e.data.Some?
    requires forall s: Stream :: OfStream(a, s) == OfStream(b, s)
    ensures Fold(a) == Fold(b)
  {
    forall s: Stream ensures (s in Fold(a) <==> s in Fold(b)) && Get(Fold(a), s) == Get(Fold(b), s) {
      FoldByStream(a, s);
      FoldByStream(b, s);
    }
  }

  // ---------------------------------------------------------------- totals

  function Contribution(b: Blob): U64 {
    if b.aborted then 0
    else if b.completed then (if b.size.Some? then b.size.value else b.bytes)
    else if b.size.Some? then Min(b.bytes, b.size.value) else b.bytes
  }

  function KnownSize(b: Blob): U64 {
    if b.aborted || b.size.None? then 0 else b.size.value
  }

  ghost function Sum(blobs: Blobs, f: Blob -> U64): nat
    decreases |blobs|
  {
    if blobs == map[] then 0
    else
      var s :| s in blobs;
      f(blobs[s]) + Sum(blobs - {s}, f)
  }

  /** The sum does not depend on which blob is taken first. */
  lemma {:induction false} SumRemove(blobs: Blobs, f: Blob -> U64, s: Stream)
    requires s in blobs
    ensures Sum(blobs, f) == f(blobs[s]) + Sum(blobs - {s}, f)
    decreases |blobs|
  {
    var t :| t in blobs && Sum(blobs, f) == f(blobs[t]) + Sum(blobs - {t}, f);
    if t != s {
      SumRemove(blobs - {t}, f, s);
      SumRemove(blobs - {s}, f, t);
      assert blobs - {t} - {s} == blobs - {s} - {t};
    }
  }

  method SaturatingSum(blobs: Blobs, f: Blob -> U64) returns (sum: U64)
    ensures sum == Min(Sum(blobs, f), U64_MAX)
  {
    sum := 0;
    var rest := blobs;
    while rest != map[]
      invariant Min(sum + Sum(rest, f), U64_MAX) == Min(Sum(blobs, f), U64_MAX)
      decreases |rest|
    {
      var s :| s in rest;
      SumRemove(rest, f, s);
      sum := Min(sum + f(rest[s]), U64_MAX);
      rest := rest - {s};
    }
  }

  ghost function Bytes(blobs: Blobs): nat {
    Min(Sum(blobs, Contribution), U64_MAX)
  }

  ghost function Sizes(blobs: Blobs): nat {
    Min(Sum(blobs, KnownSize), U64_MAX)
  }

  lemma {:induction false} SumMonotone(blobs: Blobs, f: Blob -> U64, g: Blob -> U64)
    requires forall s | s in blobs :: f(blobs[s]) <= g(blobs[s])
    ensures Sum(blobs, f) <= Sum(blobs, g)
    decreases |blobs|
  {
    if s :| s in blobs {
      SumRemove(blobs, f, s);
      SumRemove(blobs, g, s);
      SumMonotone(blobs - {s}, f, g);
    }
  }

  /** The bytes never exceed the sizes once every active size is known. */
  lemma BytesWithinSizes(blobs: Blobs)
    requires forall s | s in blobs && !blobs[s].aborted :: blobs[s].size.Some?
    ensures Bytes(blobs) <= Sizes(blobs)
  {
    SumMonotone(blobs, Contribution, KnownSize);
  }

  lemma SumUpdate(blobs: Blobs, f: Blob -> U64, s: Stream, b: Blob)
    ensures Sum(blobs[s := b], f) == f(b) + Sum(blobs - {s}, f)
  {
    SumRemove(blobs[s := b], f, s);
    assert blobs[s := b] - {s} == blobs - {s};
  }

  /** A started, progress or completed event never lowers the bytes of a fold, unless it records a
      different size for a known stream. */
  lemma AdvancingNeverLowers(events: seq<Event>, e: Event)
    requires forall x | x in events :: x.data.Some?
    requires HasStream(e) && e.kind in {"started", "progress", "completed"}
    requires StreamOf(e) in Fold(events) ==>
      e.data.value.size.None? || e.data.value.size == Fold(events)[StreamOf(e)].size
    ensures Bytes(Fold([e] + events)) >= Bytes(Fold(events))
  {
    var blobs, s := Fold(events), StreamOf(e);
    assert ([e] + events)[1..] == events;
    SumUpdate(blobs, Contribution, s, Advance(Get(blobs, s), e));
    if s in blobs {
      SumRemove(blobs, Contribution, s);
    } else {
      assert blobs - {s} == blobs;
    }
  }

  // ---------------------------------------------------------------- for_receiver

  ghost predicate AllCompleted(blobs: Blobs) {
    forall s | s in blobs && !blobs[s].aborted :: blobs[s].completed
  }

  /** What is reported for the relevant events, newest first; `total` is the size of the transfer. */
  ghost function Report(relevant: seq<Event>, total: U64): Option<Progress>
    requires forall e | e in relevant :: e.data.Some?
  {
    var blobs := Fold(relevant);
    if relevant == [] then None
    else if relevant[0].kind == "aborted" && AllCompleted(blobs) then Some(Interrupted)
    else
      var (bytes, observed) :=
        if blobs != map[] then
          (Some(Bytes(blobs) as U64), if Sizes(blobs) != 0 then Some(Sizes(blobs) as U64) else None)
        else match ConnectionProgress(relevant)
          case None => (None, None)
          case Some((position, size)) => (Some(position), size);
      Some(Sending(bytes, if total != 0 then Some(total) else observed))
  }

  method ForReceiver(events: seq<Event>, r: Request, total: U64) returns (p: Option<Progress>)
    ensures p == if r.status != "accepted" || r.endpoint == "" then None else Report(Relevant(events, r), total)
  {
    if r.status != "accepted" || r.endpoint == "" {
      return None;
    }
    var relevant := Relevant(events, r);
    if relevant == [] {
      return None;
    }
    var blobs: Blobs := map[];
    var connection: Option<(U64, Option<U64>)> := None;
    assert relevant[|relevant|..] == [];
    for n := |relevant| downto 0
      invariant blobs == Fold(relevant[n..])
      invariant blobs == map[] ==> connection == ConnectionProgress(relevant[n..])
    {
      var event := relevant[n];
      assert relevant[n..][0] == event && relevant[n..][1..] == relevant[n + 1..];
      if !HasStream(event) {
        if event.data.value.moved.Some? {
          connection := Some((event.data.value.moved.value, event.data.value.size));
        }
        continue;
      }
      blobs := blobs[StreamOf(event) := Advance(Get(blobs, StreamOf(event)), event)];
    }
    assert relevant[0..] == relevant;
    if relevant[0].kind == "aborted" && forall s | s in blobs :: !blobs[s].aborted ==> blobs[s].completed {
      return Some(Interrupted);
    }
    var bytes: Option<U64>, observed: Option<U64> := None, None;
    if blobs == map[] {
      if connection.Some? {
        bytes, observed := Some(connection.value.0), connection.value.1;
      }
    } else {
      var sum := SaturatingSum(blobs, Contribution);
      var size := SaturatingSum(blobs, KnownSize);
      bytes := Some(sum);
      observed := if size != 0 then Some(size) else None;
    }
    return Some(Sending(bytes, if total != 0 then Some(total) else observed));
  }

  // ---------------------------------------------------------------- a stream, from its events alone

  /** Some event satisfies p, and no newer one q. */
  ghost predicate Unless(events: seq<Event>, p: Event -> bool, q: Event -> bool) {
    exists i | 0 <= i < |events| :: p(events[i]) && forall j | 0 <= j < i :: !q(events[j])
  }

  lemma UnlessHead(events: seq<Event>, p: Event -> bool, q: Event -> bool)
    requires events != []
    ensures Unless(events, p, q) <==> p(events[0]) || (!q(events[0]) && Unless(events[1..], p, q))
  {
    var rest := events[1..];
    if !q(events[0]) && Unless(rest, p, q) {
      var i :| 0 <= i < |rest| && p(rest[i]) && forall j | 0 <= j < i :: !q(rest[j]);
      assert p(events[i + 1]);
      forall j | 0 <= j < i + 1 ensures !q(events[j]) {
        assert j > 0 ==> events[j] == rest[j - 1];
      }
    }
    if Unless(events, p, q) && !p(events[0]) {
      var i :| 0 <= i < |events| && p(events[i]) && forall j | 0 <= j < i :: !q(events[j]);
      assert p(rest[i - 1]);
      forall j | 0 <= j < i - 1 ensures !q(rest[j]) {
        assert rest[j] == events[j + 1];
      }
    }
  }

  predicate IsOf(e: Event, s: Stream) {
    HasStream(e) && StreamOf(e) == s
  }

  predicate Aborts(e: Event, s: Stream) {
    IsOf(e, s) && e.kind == "aborted"
  }

  predicate Resumes(e: Event, s: Stream) {
    IsOf(e, s) && (e.kind == "started" || e.kind == "progress")
  }

  predicate GivesSize(e: Event, s: Stream, size: U64) {
    IsOf(e, s) && e.data.value.size == Some(size)
  }

  predicate MovesTo(e: Event, s: Stream, position: U64) {
    Resumes(e, s) && e.data.value.moved == Some(position)
  }

  /** The stream was aborted and not started or moved since. */
  ghost predicate AbortedIn(events: seq<Event>, s: Stream) {
    Unless(events, e => Aborts(e, s), e => Resumes(e, s))
  }

  ghost predicate CompletedIn(events: seq<Event>, s: Stream) {
    exists e | e in events :: IsOf(e, s) && e.kind == "completed"
  }

  /** The newest size its events give. */
  ghost predicate HasSize(events: seq<Event>, s: Stream, size: Option<U64>) {
    match size
    case None => forall e | e in events && IsOf(e, s) :: e.data.value.size.None?
    case Some(n) => Unless(events, e => GivesSize(e, s, n), e => IsOf(e, s) && e.data.value.size.Some?)
  }

  /** The largest position it was started at or moved to. */
  ghost predicate HasMoved(events: seq<Event>, s: Stream, position: U64) {
    && (position == 0 || exists e :: e in events && MovesTo(e, s, position))
    && forall e | e in events && Resumes(e, s) && e.data.value.moved.Some? :: e.data.value.moved.value <= position
  }

  lemma FoldHead(events: seq<Event>, s: Stream)
    requires events != [] && forall e | e in events :: e.data.Some?
    ensures Get(Fold(events), s)
         == if IsOf(events[0], s) then Advance(Get(Fold(events[1..]), s), events[0]) else Get(Fold(events[1..]), s)
  {
  }

  lemma {:induction false} AbortedIff(events: seq<Event>, s: Stream)
    requires forall e | e in events :: e.data.Some?
    ensures Get(Fold(events), s).aborted <==> AbortedIn(events, s)
  {
    if events != [] {
      AbortedIff(events[1..], s);
      FoldHead(events, s);
      UnlessHead(events, e => Aborts(e, s), e => Resumes(e, s));
    }
  }

  lemma {:induction false} CompletedIff(events: seq<Event>, s: Stream)
    requires forall e | e in events :: e.data.Some?
    ensures Get(Fold(events), s).completed <==> CompletedIn(events, s)
  {
    if events != [] {
      CompletedIff(events[1..], s);
      FoldHead(events, s);
      assert events == [events[0]] + events[1..];
    }
  }

  lemma SizeHead(e: Event, rest: seq<Event>, s: Stream, b: Blob)
    requires HasSize(rest, s, b.size)
    ensures HasSize([e] + rest, s, (if IsOf(e, s) then Advance(b, e) else b).size)
  {
    var events, size := [e] + rest, (if IsOf(e, s) then Advance(b, e) else b).size;
    assert events[1..] == rest;
    if size.Some? {
      UnlessHead(events, x => GivesSize(x, s, size.value), x => IsOf(x, s) && x.data.value.size.Some?);
    }
  }

  lemma {:induction false} SizeIsNewest(events: seq<Event>, s: Stream)
    requires forall e | e in events :: e.data.Some?
    ensures HasSize(events, s, Get(Fold(events), s).size)
  {
    if events != [] {
      SizeIsNewest(events[1..], s);
      FoldHead(events, s);
      SizeHead(events[0], events[1..], s, Get(Fold(events[1..]), s));
      assert events == [events[0]] + events[1..];
    }
  }

  lemma MovedHead(e: Event, rest: seq<Event>, s: Stream, b: Blob)
    requires HasMoved(rest, s, b.bytes)
    ensures HasMoved([e] + rest, s, (if IsOf(e, s) then Advance(b, e) else b).bytes)
  {
    var events, position := [e] + rest, (if IsOf(e, s) then Advance(b, e) else b).bytes;
    if position != 0 {
      if MovesTo(e, s, position) {
        assert e in events;
      } else {
        var x :| x in rest && MovesTo(x, s, position);
        assert x in events;
      }
    }
  }

  lemma {:induction false} BytesAreLargest(events: seq<Event>, s: Stream)
    requires forall e | e in events :: e.data.Some?
    ensures HasMoved(events, s, Get(Fold(events), s).bytes)
  {
    if events != [] {
      BytesAreLargest(events[1..], s);
      FoldHead(events, s);
      MovedHead(events[0], events[1..], s, Get(Fold(events[1..]), s));
      assert events == [events[0]] + events[1..];
    }
  }

  /** What a stream counts for: nothing while it is aborted, its size once it completed, else what moved
      so far, within its size. */
  lemma StreamCounts(events: seq<Event>, s: Stream)
    returns (size: Option<U64>, position: U64)
    requires forall e | e in events :: e.data.Some?
    ensures HasSize(events, s, size) && HasMoved(events, s, position)
    ensures Contribution(Get(Fold(events), s))
         == if AbortedIn(events, s) then 0
            else if size.None? then position
            else if CompletedIn(events, s) || position > size.value then size.value
            else position
    ensures KnownSize(Get(Fold(events), s)) == if AbortedIn(events, s) || size.None? then 0 else size.value
  {
    AbortedIff(events, s);
    CompletedIff(events, s);
    SizeIsNewest(events, s);
    BytesAreLargest(events, s);
    size, position := Get(Fold(events), s).size, Get(Fold(events), s).bytes;
  }

  lemma {:induction false} InFoldIff(events: seq<Event>, s: Stream)
    requires forall e | e in events :: e.data.Some?
    ensures s in Fold(events) <==> exists e :: e in events && IsOf(e, s)
  {
    if events != [] {
      var e, rest := events[0], events[1..];
      InFoldIff(rest, s);
      assert events == [e] + rest;
      assert s in Fold(events) <==> IsOf(e, s) || s in Fold(rest);
      if s in Fold(rest) {
        var x :| x in rest && IsOf(x, s);
        assert x in events;
      }
    }
  }

  /** An upload is reported as interrupted exactly if the newest event aborts and every stream is aborted
      or completed. */
  lemma InterruptedIff(relevant: seq<Event>, total: U64)
    requires forall e | e in relevant :: e.data.Some?
    ensures Report(relevant, total) == Some(Interrupted) <==>
      && relevant != [] && relevant[0].kind == "aborted"
      && forall e | e in relevant && HasStream(e) ::
           AbortedIn(relevant, StreamOf(e)) || CompletedIn(relevant, StreamOf(e))
  {
    forall s: Stream
      ensures s in Fold(relevant) ==> (Fold(relevant)[s].aborted <==> AbortedIn(relevant, s))
      ensures s in Fold(relevant) ==> (Fold(relevant)[s].completed <==> CompletedIn(relevant, s))
      ensures s in Fold(relevant) <==> exists e :: e in relevant && IsOf(e, s)
    {
      AbortedIff(relevant, s);
      CompletedIff(relevant, s);
      InFoldIff(relevant, s);
    }
    forall e | e in relevant && HasStream(e) ensures StreamOf(e) in Fold(relevant) {
      assert IsOf(e, StreamOf(e));
    }
  }

  predicate HasPosition(e: Event) {
    e.data.Some? && e.data.value.request.None? && e.data.value.moved.Some?
  }

  predicate Positions(e: Event, moved: U64, size: Option<U64>) {
    HasPosition(e) && e.data.value.moved == Some(moved) && e.data.value.size == size
  }

  /** The position of the connection is the newest one reported without a request id. */
  lemma {:induction false} ConnectionProgressIsNewest(events: seq<Event>)
    requires forall e | e in events :: e.data.Some?
    ensures match ConnectionProgress(events)
      case None => forall e | e in events :: !HasPosition(e)
      case Some((moved, size)) => Unless(events, e => Positions(e, moved, size), e => HasPosition(e))
  {
    if events != [] {
      ConnectionProgressIsNewest(events[1..]);
      assert events == [events[0]] + events[1..];
      match ConnectionProgress(events) {
        case None =>
        case Some((moved, size)) =>
          UnlessHead(events, e => Positions(e, moved, size), e => HasPosition(e));
      }
    }
  }

  /** Any other upload is reported as sending: the summed streams if there are any, else the position of
      the connection. The size of the transfer comes before an observed one. */
  lemma SendingReport(relevant: seq<Event>, total: U64)
    requires forall e | e in relevant :: e.data.Some?
    requires relevant != [] && Report(relevant, total) != Some(Interrupted)
    ensures Report(relevant, total).Some? && Report(relevant, total).value.Sending?
    ensures var p, streams := Report(relevant, total).value, exists e :: e in relevant && HasStream(e);
      && (streams ==> p.bytes == Some(Bytes(Fold(relevant))))
      && (!streams ==>
            p.bytes == if ConnectionProgress(relevant).Some? then Some(ConnectionProgress(relevant).value.0) else None)
      && (total != 0 ==> p.total == Some(total))
      && (total == 0 && streams ==>
            if Sizes(Fold(relevant)) == 0 then p.total.None? else p.total == Some(Sizes(Fold(relevant))))
      && (total == 0 && !streams ==>
            p.total == if ConnectionProgress(relevant).Some? then ConnectionProgress(relevant).value.1 else None)
  {
    forall s: Stream ensures s in Fold(relevant) <==> exists e :: e in relevant && IsOf(e, s) {
      InFoldIff(relevant, s);
    }
    if e :| e in relevant && HasStream(e) {
      assert IsOf(e, StreamOf(e));
      assert StreamOf(e) in Fold(relevant);
    }
    assert Fold(relevant) != map[] ==> exists s :: s in Fold(relevant);
  }

  // ---------------------------------------------------------------- which events count

  /** Another event names the endpoint on the connection of e. */
  ghost predicate IsIntroduced(e: Event, x: Event, r: Request) {
    && e.data.Some? && x.data.Some? && x.timestamp >= r.requestedAt && Matches(x.data.value.endpoint, r)
    && e.data.value.connection.Some? && x.data.value.connection == e.data.value.connection
  }

  lemma {:induction false} FilterHolds(events: seq<Event>, r: Request, connections: set<string>, e: Event)
    ensures e in Filter(events, r, connections) <==> e in events && IsRelevant(e, r, connections)
  {
    if events != [] {
      FilterHolds(events[1..], r, connections, e);
      assert events == [events[0]] + events[1..];
    }
  }

  /** An event counts exactly if it is a transfer event of this request, not older than it, and names its
      endpoint, or names none and is on a connection that another event introduces. */
  lemma RelevantIff(events: seq<Event>, r: Request, e: Event)
    ensures e in Relevant(events, r) <==>
      && e in events && e.timestamp >= r.requestedAt && e.data.Some?
      && e.transferId == Some(r.transferId) && e.direction == Some("send") && e.phase == "transfer"
      && (e.kind == "started" || e.kind == "progress" || e.kind == "completed" || e.kind == "aborted")
      && match e.data.value.endpoint
         case Missing => exists x :: x in events && IsIntroduced(e, x, r)
         case Named(id) => id == r.endpoint || id == r.fingerprint
         case NotText => false
  {
    var connections := Connections(events, r);
    FilterHolds(events, r, connections, e);
    if e.data.Some? && e.data.value.connection.Some? {
      var c := e.data.value.connection.value;
      assert c in connections <==> exists x :: x in events && IsIntroduced(e, x, r);
    }
  }

  // ---------------------------------------------------------------- what other peers can do

  lemma {:induction false} FilterSkips(a: seq<Event>, e: Event, b: seq<Event>, r: Request, connections: set<string>)
    requires !IsRelevant(e, r, connections)
    ensures Filter(a + [e] + b, r, connections) == Filter(a + b, r, connections)
  {
    if a == [] {
      assert a + [e] + b == [e] + b && a + b == b && ([e] + b)[1..] == b;
    } else {
      assert (a + [e] + b)[1..] == a[1..] + [e] + b && (a + b)[1..] == a[1..] + b;
      FilterSkips(a[1..], e, b, r, connections);
    }
  }

  /** An event naming another endpoint, anywhere in the history, changes nothing for this receiver. */
  lemma OtherPeersIgnored(a: seq<Event>, e: Event, b: seq<Event>, r: Request)
    requires e.data.Some? && !e.data.value.endpoint.Missing? && !Matches(e.data.value.endpoint, r)
    ensures Relevant(a + [e] + b, r) == Relevant(a + b, r)
  {
    var with, without := a + [e] + b, a + b;
    assert forall x :: x in with <==> x in without || x == e;
    assert Connections(with, r) == Connections(without, r);
    FilterSkips(a, e, b, r, Connections(with, r));
  }

  // ---------------------------------------------------------------- what a new event can bring along

  /** A stream of a connection that was counted before is made of the same events when more connections
      count. */
  lemma {:induction false} FilterOfStream(events: seq<Event>, r: Request, fewer: set<string>, more: set<string>,
                                          s: Stream)
    requires fewer <= more && (s.0.Some? && s.0.value in more ==> s.0.value in fewer)
    ensures OfStream(Filter(events, r, more), s) == OfStream(Filter(events, r, fewer), s)
  {
    if events != [] {
      var e, rest := events[0], events[1..];
      FilterOfStream(rest, r, fewer, more, s);
      FilterHead(events, r, more);
      FilterHead(events, r, fewer);
      if IsRelevant(e, r, more) {
        OfStreamHead(e, Filter(rest, r, more), s);
      }
      if IsRelevant(e, r, fewer) {
        OfStreamHead(e, Filter(rest, r, fewer), s);
      }
    }
  }

  lemma FilterHead(events: seq<Event>, r: Request, connections: set<string>)
    requires events != []
    ensures Filter(events, r, connections)
         == if IsRelevant(events[0], r, connections) then [events[0]] + Filter(events[1..], r, connections)
            else Filter(events[1..], r, connections)
  {
  }

  lemma OfStreamHead(e: Event, rest: seq<Event>, s: Stream)
    requires e.data.Some? && forall x | x in rest :: x.data.Some?
    ensures OfStream([e] + rest, s)
         == if HasStream(e) && StreamOf(e) == s then [e] + OfStream(rest, s) else OfStream(rest, s)
  {
    assert ([e] + rest)[1..] == rest;
  }

  /** The counted streams belong to counted connections. */
  lemma {:induction false} StreamsAreKnown(events: seq<Event>, r: Request, connections: set<string>, s: Stream)
    requires Connections(events, r) <= connections
    requires s in Fold(Filter(events, r, connections))
    ensures s.0.Some? ==> s.0.value in connections
  {
    var e, rest := events[0], events[1..];
    assert forall x | x in rest :: x in events;
    FilterHead(events, r, connections);
    if s in Fold(Filter(rest, r, connections)) {
      StreamsAreKnown(rest, r, connections, s);
    } else {
      assert ([e] + Filter(rest, r, connections))[1..] == Filter(rest, r, connections);
      assert IsRelevant(e, r, connections) && HasStream(e) && StreamOf(e) == s;
    }
  }

  /** The events that count once e has arrived. */
  function Older(events: seq<Event>, e: Event, r: Request): (f: seq<Event>)
    ensures forall x | x in f :: x.data.Some?
  {
    Filter(events, r, Connections([e] + events, r))
  }

  lemma ConnectionsGrow(events: seq<Event>, e: Event, r: Request)
    ensures Connections(events, r) <= Connections([e] + events, r)
    ensures forall c | c in Connections([e] + events, r) && c !in Connections(events, r) ::
      e.data.Some? && e.data.value.connection == Some(c)
  {
  }

  lemma RelevantHead(events: seq<Event>, e: Event, r: Request)
    requires IsRelevant(e, r, Connections([e] + events, r))
    ensures Relevant([e] + events, r) == [e] + Older(events, e, r)
  {
    FilterHead([e] + events, r, Connections([e] + events, r));
    assert ([e] + events)[1..] == events;
  }

  /** What counted before counts on unchanged; streams that come in are on the connection of e. */
  lemma StreamsStay(events: seq<Event>, e: Event, r: Request, s: Stream)
    requires e.data.Some?
    ensures s in Fold(Relevant(events, r)) ==>
      s in Fold(Older(events, e, r)) && Fold(Older(events, e, r))[s] == Fold(Relevant(events, r))[s]
    ensures s in Fold(Older(events, e, r)) ==> s in Fold(Relevant(events, r)) || s.0 == e.data.value.connection
  {
    ConnectionsGrow(events, e, r);
    var fewer, more := Connections(events, r), Connections([e] + events, r);
    if s in Fold(Relevant(events, r)) {
      StreamsAreKnown(events, r, fewer, s);
    }
    if s.0.Some? && s.0.value in more ==> s.0.value in fewer {
      FilterOfStream(events, r, fewer, more, s);
      FoldByStream(Relevant(events, r), s);
      FoldByStream(Older(events, e, r), s);
    }
  }

  lemma {:induction false} SumSubmap(a: Blobs, b: Blobs, f: Blob -> U64)
    requires forall s | s in a :: s in b && b[s] == a[s]
    ensures Sum(a, f) <= Sum(b, f)
    decreases |a|
  {
    if s :| s in a {
      SumRemove(a, f, s);
      SumRemove(b, f, s);
      SumSubmap(a - {s}, b - {s}, f);
    }
  }

  lemma OlderBytes(events: seq<Event>, e: Event, r: Request)
    requires e.data.Some?
    ensures Bytes(Fold(Relevant(events, r))) <= Bytes(Fold(Older(events, e, r)))
  {
    var before, older := Fold(Relevant(events, r)), Fold(Older(events, e, r));
    forall s | s in before ensures s in older && older[s] == before[s] {
      StreamsStay(events, e, r, s);
    }
    SumSubmap(before, older, Contribution);
  }

  function OnConnection(events: seq<Event>, connection: Option<string>): (f: seq<Event>)
    requires forall e | e in events :: e.data.Some?
    ensures forall e | e in f :: e.data.Some?
  {
    if events == [] then []
    else if events[0].data.value.connection == connection then [events[0]] + OnConnection(events[1..], connection)
    else OnConnection(events[1..], connection)
  }

  lemma {:induction false} FoldOnConnection(events: seq<Event>, connection: Option<string>)
    requires forall e | e in events :: e.data.Some?
    requires forall s | s in Fold(events) :: s.0 == connection
    ensures Fold(OnConnection(events, connection)) == Fold(events)
  {
    if events != [] {
      var e, rest := events[0], events[1..];
      assert forall s | s in Fold(rest) :: s in Fold(events);
      FoldOnConnection(rest, connection);
      if e.data.value.connection == connection {
        assert ([e] + OnConnection(rest, connection))[1..] == OnConnection(rest, connection);
      } else {
        assert HasStream(e) ==> StreamOf(e) in Fold(events);
      }
    }
  }

  // ---------------------------------------------------------------- the report after a new event

  ghost predicate Advances(e: Event, known: Blobs) {
    && HasStream(e) && e.kind in {"started", "progress", "completed"}
    && (StreamOf(e) in known ==> e.data.value.size.None? || e.data.value.size == known[StreamOf(e)].size)
  }

  lemma ReportOfStreams(relevant: seq<Event>, total: U64)
    requires forall x | x in relevant :: x.data.Some?
    requires relevant != [] && relevant[0].kind != "aborted" && Fold(relevant) != map[]
    ensures var p := Report(relevant, total);
      p.Some? && p.value.Sending? && p.value.bytes == Some(Bytes(Fold(relevant)))
  {
  }

  /** If no stream counted before, all that counts now is on the connection of e. */
  lemma FirstStreams(events: seq<Event>, e: Event, r: Request)
    requires HasStream(e) && Fold(Relevant(events, r)) == map[]
    ensures forall x | x in [e] + Older(events, e, r) :: x.data.Some?
    ensures Fold(OnConnection([e] + Older(events, e, r), e.data.value.connection)) == Fold([e] + Older(events, e, r))
  {
    var all := [e] + Older(events, e, r);
    assert all[1..] == Older(events, e, r);
    forall s | s in Fold(all) ensures s.0 == e.data.value.connection {
      if s != StreamOf(e) {
        StreamsStay(events, e, r, s);
      }
    }
    FoldOnConnection(all, e.data.value.connection);
  }

  /** In the report of a whole history an advancing event lowers the bytes in one case only: it brings
      the first streams to count, and on its connection these start below the position reported without
      them. Besides itself these are earlier events without an endpoint, if the event is the first to
      name the endpoint on its connection. */
  lemma AdvancingReport(events: seq<Event>, e: Event, r: Request, total: U64)
    requires IsRelevant(e, r, Connections([e] + events, r)) && Advances(e, Fold(Older(events, e, r)))
    requires Report(Relevant(events, r), total).Some? && Report(Relevant(events, r), total).value.Sending?
    requires Report(Relevant(events, r), total).value.bytes.Some?
    ensures forall x | x in [e] + Older(events, e, r) :: x.data.Some?
    ensures var before, after := Report(Relevant(events, r), total).value, Report(Relevant([e] + events, r), total);
      && after.Some? && after.value.Sending? && after.value.bytes.Some?
      && (after.value.bytes.value >= before.bytes.value <==>
            || Fold(Relevant(events, r)) != map[]
            || ConnectionProgress(Relevant(events, r)).value.0
                 <= Bytes(Fold(OnConnection([e] + Older(events, e, r), e.data.value.connection))))
  {
    var older := Older(events, e, r);
    RelevantHead(events, e, r);
    AdvancingNeverLowers(older, e);
    OlderBytes(events, e, r);
    assert ([e] + older)[1..] == older;
    ReportOfStreams([e] + older, total);
    if Fold(Relevant(events, r)) == map[] {
      FirstStreams(events, e, r);
    }
  }

  /** If no other event comes in with it, its own bytes decide. */
  lemma AdvancingAlone(events: seq<Event>, e: Event, r: Request)
    requires HasStream(e) && Older(events, e, r) == Relevant(events, r) && Fold(Relevant(events, r)) == map[]
    ensures forall x | x in [e] + Older(events, e, r) :: x.data.Some?
    ensures Bytes(Fold(OnConnection([e] + Older(events, e, r), e.data.value.connection)))
         == Contribution(Advance(FRESH, e))
  {
    FirstStreams(events, e, r);
    assert ([e] + Older(events, e, r))[1..] == Older(events, e, r);
    var none: Blobs := map[];
    SumUpdate(none, Contribution, StreamOf(e), Advance(FRESH, e));
    assert none - {StreamOf(e)} == none;
  }

  const RECEIVER := Request(1, "r", "f", "accepted", 0)

  /** That case occurs: the first request id replaces the position of the connection. */
  lemma FirstStreamReplacesConnection(total: U64) returns (events: seq<Event>, e: Event)
    ensures HasStream(e) && e.kind == "started" && IsRelevant(e, RECEIVER, Connections([e] + events, RECEIVER))
    ensures var b, a := Report(Relevant(events, RECEIVER), total), Report(Relevant([e] + events, RECEIVER), total);
      && b.Some? && b.value.Sending? && b.value.bytes == Some(100)
      && a.Some? && a.value.Sending? && a.value.bytes == Some(0)
  {
    var plain := Event(0, Some(1), Some("send"), "transfer", "progress",
                       Some(Data(Named("r"), Some("c"), None, None, Some(100))));
    e := Event(1, Some(1), Some("send"), "transfer", "started",
               Some(Data(Named("r"), Some("c"), Some("1"), None, None)));
    events := [plain];
    FilterHead(events, RECEIVER, Connections(events, RECEIVER));
    FilterHead(events, RECEIVER, Connections([e] + events, RECEIVER));
    assert events[1..] == [];
    assert Relevant(events, RECEIVER) == [plain] == Older(events, e, RECEIVER) && [plain][1..] == [];
    assert Fold([plain]) == map[];
    RelevantHead(events, e, RECEIVER);
    AdvancingAlone(events, e, RECEIVER);
    FirstStreams(events, e, RECEIVER);
    assert ([e] + [plain])[1..] == [plain];
    ReportOfStreams([e] + [plain], total);
  }
}
