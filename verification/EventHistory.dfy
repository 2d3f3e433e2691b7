/** The bounded, newest-first event history (linux/src/events.rs).

    The history is compared with an unbounded reference: the canonical set keeps every
    non-progress event ever offered and, for each progress key, only the newest one. */
module EventHistory {
  import opened Common

  datatype Json = Null | Number(n: int) | Text(s: string) | Other(raw: string)

  /** `connection` and `request` are data["connection_id"] and data["request_id"] of the parsed
      data_json; both are Null when the text does not parse. */
  datatype Event = Event(
    id: string, timestamp: int, revision: nat,
    transferId: Option<nat>, direction: Option<string>, phase: string, kind: string,
    connection: Json, request: Json)

  datatype ProgressKey = ProgressKey(
    transferId: Option<nat>, direction: Option<string>, phase: string, kind: string,
    connection: Json, request: Json)

  datatype Entry = Entry(event: Event, key: Option<ProgressKey>)

  function KeyOf(e: Event): Option<ProgressKey> {
    if e.kind in {"progress", "copy-progress", "outboard-progress"} then
      Some(ProgressKey(e.transferId, e.direction, e.phase, e.kind, e.connection, e.request))
    else
      None
  }

  /** Order on (timestamp, revision). */
  predicate Newer(a: Event, b: Event) {
    a.timestamp > b.timestamp || (a.timestamp == b.timestamp && a.revision > b.revision)
  }

  predicate IdGreater(a: string, b: string) {
    if a == [] || b == [] then a != []
    else if a[0] != b[0] then a[0] > b[0]
    else IdGreater(a[1..], b[1..])
  }

  /** The sort order of the source: newest first, ids breaking ties. */
  predicate SortsBefore(a: Event, b: Event) {
    Newer(a, b) || (a.timestamp == b.timestamp && a.revision == b.revision && IdGreater(a.id, b.id))
  }

  /** Events as minted by the event hub: the id and the (timestamp, revision) pair each identify
      the event. */
  ghost predicate Minted(events: set<Event>) {
    forall a, b | a in events && b in events && a != b ::
      a.id != b.id && (Newer(a, b) || Newer(b, a))
  }

  // ---------------------------------------------------------------- unbounded reference

  ghost predicate Superseded(e: Event, newer: Event) {
    KeyOf(e).Some? && KeyOf(newer) == KeyOf(e) && Newer(newer, e)
  }

  ghost function Canonical(offered: set<Event>): set<Event> {
    set e | e in offered && forall f | f in offered :: !Superseded(e, f)
  }

  /** The order is lexicographic on timestamp and revision; events are minted with distinct ids and
      distinct such pairs. */
  lemma MintedIff(events: set<Event>)
    ensures Minted(events) <==> forall a, b | a in events && b in events && a != b ::
      a.id != b.id && (a.timestamp, a.revision) != (b.timestamp, b.revision)
    ensures forall a, b | a in events && b in events && Newer(a, b) ::
      a.timestamp >= b.timestamp && (a.timestamp == b.timestamp ==> a.revision > b.revision)
  {
  }

  /** Ids are compared character by character, a prefix being smaller. */
  lemma {:induction false} IdGreaterIff(a: string, b: string)
    ensures IdGreater(a, b) <==>
      exists k | 0 <= k < |a| && k <= |b| :: a[..k] == b[..k] && (k < |b| ==> a[k] > b[k])
  {
    if a != [] && b != [] {
      if a[0] == b[0] {
        IdGreaterIff(a[1..], b[1..]);
        forall k | 1 <= k <= |a| && k <= |b| ensures a[..k] == b[..k] <==> a[1..][..k - 1] == b[1..][..k - 1] {
          assert a[..k] == [a[0]] + a[1..][..k - 1] && b[..k] == [b[0]] + b[1..][..k - 1];
        }
        if IdGreater(a, b) {
          var k :| 0 <= k < |a[1..]| && k <= |b[1..]| && a[1..][..k] == b[1..][..k]
            && (k < |b[1..]| ==> a[1..][k] > b[1..][k]);
          assert a[..k + 1] == b[..k + 1];
        }
        if k :| 0 <= k < |a| && k <= |b| && a[..k] == b[..k] && (k < |b| ==> a[k] > b[k]) {
          assert k > 0;
          assert a[1..][..k - 1] == b[1..][..k - 1];
        }
      } else {
        assert a[..0] == b[..0];
        forall k | 1 <= k <= |a| && k <= |b| ensures a[..k] != b[..k] {
          assert a[..k][0] == a[0] && b[..k][0] == b[0];
        }
      }
    } else {
      assert a[..0] == b[..0];
    }
  }

  predicate SameStream(a: Event, b: Event) {
    && a.transferId == b.transferId && a.direction == b.direction && a.phase == b.phase && a.kind == b.kind
    && a.connection == b.connection && a.request == b.request
  }

  /** An event offered is canonical exactly if it does not report progress, or no newer one offered
      agrees with it in transfer, direction, phase, kind, connection and request. */
  lemma CanonicalIff(offered: set<Event>, e: Event)
    ensures e in Canonical(offered) <==>
      && e in offered
      && (e.kind == "progress" || e.kind == "copy-progress" || e.kind == "outboard-progress" ==>
            forall f | f in offered && SameStream(e, f) :: !Newer(f, e))
  {
    forall f | f in offered ensures Superseded(e, f) <==>
      (e.kind == "progress" || e.kind == "copy-progress" || e.kind == "outboard-progress")
      && SameStream(e, f) && Newer(f, e)
    {
      if SameStream(e, f) {
        assert KeyOf(e) == KeyOf(f);
      }
    }
  }

  ghost function Above(events: set<Event>, e: Event): set<Event> {
    set f | f in events && Newer(f, e)
  }

  predicate NewestFirst(h: seq<Event>) {
    forall i, j | 0 <= i < j < |h| :: Newer(h[i], h[j])
  }

  ghost function Elements(h: seq<Event>): set<Event> {
    set e | e in h
  }

  /** `h` is the `capacity` newest canonical events, newest first. */
  ghost predicate IsHistory(h: seq<Event>, offered: set<Event>, capacity: nat) {
    && NewestFirst(h)
    && |h| <= capacity
    && Elements(h) <= Canonical(offered)
    && forall e | e in Canonical(offered) && e !in h :: |h| == capacity && forall f | f in h :: Newer(f, e)
  }

  lemma AboveInSorted(h: seq<Event>, i: nat)
    requires NewestFirst(h) && i < |h|
    ensures |Above(Elements(h), h[i])| == i
  {
    var top := Elements(h[..i]);
    assert Above(Elements(h), h[i]) == top;
    SortedCardinality(h[..i]);
  }

  lemma {:induction false} SortedCardinality(h: seq<Event>)
    requires NewestFirst(h)
    ensures |Elements(h)| == |h|
  {
    if h != [] {
      SortedCardinality(h[1..]);
      assert Elements(h) == {h[0]} + Elements(h[1..]);
      assert h[0] !in h[1..];
    } else {
      assert Elements(h) == {};
    }
  }

  /** The history is a function of what was offered: batching and order cannot show. */
  lemma {:induction false} HistoryUnique(h1: seq<Event>, h2: seq<Event>, offered: set<Event>, capacity: nat)
    requires Minted(offered)
    requires IsHistory(h1, offered, capacity) && IsHistory(h2, offered, capacity)
    ensures h1 == h2
  {
    HistoryWithin(h1, h2, offered, capacity);
    HistoryWithin(h2, h1, offered, capacity);
    assert Elements(h1) == Elements(h2);
    SortedUnique(h1, h2);
  }

  lemma HistoryWithin(h1: seq<Event>, h2: seq<Event>, offered: set<Event>, capacity: nat)
    requires IsHistory(h1, offered, capacity) && IsHistory(h2, offered, capacity)
    ensures Elements(h1) <= Elements(h2)
  {
    forall e | e in h1 ensures e in h2 {
      if e !in h2 {
        // Then h2 is full of events newer than e, all of which must be in h1 as well.
        assert forall f | f in h2 :: Newer(f, e);
        forall f | f in h2 ensures f in h1 {
          assert f in Elements(h2);
          assert f !in h1 ==> Newer(e, f);
        }
        SortedCardinality(h1);
        SortedCardinality(h2);
        assert e in Elements(h1);
        CardinalityBound(Elements(h2) + {e}, Elements(h1));
      }
    }
  }

  lemma {:induction false} CardinalityBound<T>(a: set<T>, b: set<T>)
    requires a <= b
    ensures |a| <= |b|
  {
    if x :| x in a {
      CardinalityBound(a - {x}, b - {x});
    }
  }

  lemma {:induction false} SortedUnique(h1: seq<Event>, h2: seq<Event>)
    requires NewestFirst(h1) && NewestFirst(h2) && Elements(h1) == Elements(h2)
    ensures h1 == h2
  {
    SortedCardinality(h1);
    SortedCardinality(h2);
    if h1 != [] {
      assert h1[0] in Elements(h2) && h1[0] in h2;
      assert h2[0] in Elements(h1) && h2[0] in h1;
      assert h1[0] == h2[0];
      forall e ensures e in Elements(h1[1..]) <==> e in Elements(h2[1..]) {
        assert h1 == [h1[0]] + h1[1..] && h2 == [h2[0]] + h2[1..];
        assert e in Elements(h1) <==> e == h1[0] || e in h1[1..];
        assert e in Elements(h2) <==> e == h2[0] || e in h2[1..];
        assert h1[0] !in h1[1..] && h2[0] !in h2[1..];
      }
      SortedUnique(h1[1..], h2[1..]);
    }
  }

  /** A progress event older than one already offered for its key changes nothing. */
  lemma StaleProgressIgnored(h: seq<Event>, offered: set<Event>, capacity: nat, stale: Event, newer: Event)
    requires Minted(offered + {stale})
    requires newer in offered && Superseded(stale, newer)
    ensures IsHistory(h, offered, capacity) <==> IsHistory(h, offered + {stale}, capacity)
  {
    StaleKeepsCanonical(offered, stale, newer);
  }

  lemma StaleKeepsCanonical(offered: set<Event>, stale: Event, newer: Event)
    requires newer in offered && Superseded(stale, newer)
    ensures Canonical(offered + {stale}) == Canonical(offered)
  {
    forall e | e in Canonical(offered) ensures e in Canonical(offered + {stale}) {
      if Superseded(e, stale) { assert Superseded(e, newer); }
    }
  }

  // ---------------------------------------------------------------- the merge buffer

  /** What the buffer of `merge` promises between truncations: wherever it disagrees with the
      canonical set, `capacity` newer buffered events hide the disagreement. */
  ghost predicate Tracks(buffer: set<Event>, offered: set<Event>, capacity: nat) {
    && buffer <= offered
    && (forall e, f | e in buffer && f in buffer && KeyOf(e).Some? && KeyOf(e) == KeyOf(f) :: e == f)
    && (forall e | e in Canonical(offered) && e !in buffer :: |Above(buffer, e)| >= capacity)
    && (forall e | e in buffer && e !in Canonical(offered) :: |Above(buffer, e)| >= capacity)
  }

  /** The newest offered event of a key is canonical. */
  lemma {:induction false} CanonicalOfKey(offered: set<Event>, e: Event) returns (top: Event)
    requires Minted(offered) && e in offered
    ensures top in Canonical(offered) && (top == e || Superseded(e, top))
    decreases |Above(offered, e)|
  {
    if f :| f in offered && Superseded(e, f) {
      assert Above(offered, f) < Above(offered, e) by { assert f in Above(offered, e); }
      SmallerCardinality(Above(offered, f), Above(offered, e));
      top := CanonicalOfKey(offered, f);
    } else {
      top := e;
    }
  }

  lemma SmallerCardinality<T>(a: set<T>, b: set<T>)
    requires a < b
    ensures |a| < |b|
  {
    var x :| x in b && x !in a;
    CardinalityBound(a, b - {x});
  }

  /** Replacing a buffered event by a newer one never uncovers anything. */
  lemma ReplaceKeepsCover(buffer: set<Event>, gone: set<Event>, x: Event, e: Event)
    requires gone <= buffer && x !in buffer
    requires forall a, b | a in gone && b in gone :: a == b
    requires forall g | g in gone :: Newer(x, g)
    ensures |Above(buffer - gone + {x}, e)| >= |Above(buffer, e)|
  {
    var before, after := Above(buffer, e), Above(buffer - gone + {x}, e);
    if g :| g in gone && Newer(g, e) {
      assert gone == {g};
      assert before - {g} + {x} <= after;
      CardinalityBound(before - {g} + {x}, after);
    } else {
      assert before <= after;
      CardinalityBound(before, after);
    }
  }

  ghost function SameKey(buffer: set<Event>, x: Event): set<Event> {
    set e | e in buffer && KeyOf(e).Some? && KeyOf(e) == KeyOf(x)
  }

  /** One accepted event takes the place of the buffered events of its progress key. */
  lemma AcceptKeepsTracking(buffer: set<Event>, offered: set<Event>, x: Event, capacity: nat)
    requires Minted(offered + {x}) && Tracks(buffer, offered, capacity) && x !in buffer
    requires forall g | g in SameKey(buffer, x) :: Newer(x, g)
    ensures Tracks(buffer - SameKey(buffer, x) + {x}, offered + {x}, capacity)
  {
    var buffer', offered' := buffer - SameKey(buffer, x) + {x}, offered + {x};
    forall e | e in Canonical(offered') && e !in buffer' ensures |Above(buffer', e)| >= capacity {
      AcceptCoversMissing(buffer, offered, x, capacity, e);
    }
    forall e | e in buffer' && e !in Canonical(offered') ensures |Above(buffer', e)| >= capacity {
      AcceptCoversStale(buffer, offered, x, capacity, e);
    }
  }

  lemma AcceptCoversMissing(buffer: set<Event>, offered: set<Event>, x: Event, capacity: nat, e: Event)
    requires Tracks(buffer, offered, capacity) && x !in buffer
    requires forall g | g in SameKey(buffer, x) :: Newer(x, g)
    requires e in Canonical(offered + {x}) && e !in buffer - SameKey(buffer, x) + {x}
    ensures |Above(buffer - SameKey(buffer, x) + {x}, e)| >= capacity
  {
    assert e in Canonical(offered);
    assert e in SameKey(buffer, x) ==> Superseded(e, x);
    ReplaceKeepsCover(buffer, SameKey(buffer, x), x, e);
  }

  lemma AcceptCoversStale(buffer: set<Event>, offered: set<Event>, x: Event, capacity: nat, e: Event)
    requires Minted(offered + {x}) && Tracks(buffer, offered, capacity) && x !in buffer
    requires forall g | g in SameKey(buffer, x) :: Newer(x, g)
    requires e in buffer - SameKey(buffer, x) + {x} && e !in Canonical(offered + {x})
    ensures |Above(buffer - SameKey(buffer, x) + {x}, e)| >= capacity
  {
    var buffer', offered' := buffer - SameKey(buffer, x) + {x}, offered + {x};
    if e == x {
      // Some newer event of its key is canonical but not buffered, hence already covered.
      var top := CanonicalOfKey(offered', x);
      assert Superseded(x, top) && top in Canonical(offered);
      assert top in buffer ==> top in SameKey(buffer, x);
      ReplaceKeepsCover(buffer, SameKey(buffer, x), x, top);
      assert Above(buffer', top) <= Above(buffer', x);
      CardinalityBound(Above(buffer', top), Above(buffer', x));
    } else {
      assert e in Canonical(offered) ==> e in SameKey(buffer, x);
      ReplaceKeepsCover(buffer, SameKey(buffer, x), x, e);
    }
  }

  /** Sorting and truncating a tracking buffer leaves exactly the history. */
  lemma TruncatedIsHistory(sorted: seq<Event>, offered: set<Event>, capacity: nat)
    requires NewestFirst(sorted) && Minted(offered)
    requires Tracks(Elements(sorted), offered, capacity)
    ensures IsHistory(sorted[..Min(|sorted|, capacity)], offered, capacity)
  {
    var buffer, h := Elements(sorted), sorted[..Min(|sorted|, capacity)];
    forall e | e in h ensures e in Canonical(offered) {
      var i :| 0 <= i < |h| && h[i] == e;
      AboveInSorted(sorted, i);
      assert e in buffer;
    }
    forall e | e in Canonical(offered) && e !in h
      ensures |h| == capacity && forall f | f in h :: Newer(f, e)
    {
      if e in buffer {
        var k :| 0 <= k < |sorted| && sorted[k] == e;
        assert forall j | 0 <= j < |h| :: h[j] == sorted[j] && h[j] in h;
      } else {
        CoveredIsBelow(sorted, e, capacity);
      }
    }
  }

  lemma CoveredIsBelow(sorted: seq<Event>, e: Event, capacity: nat)
    requires NewestFirst(sorted) && |Above(Elements(sorted), e)| >= capacity
    ensures capacity <= |sorted| && forall f | f in sorted[..capacity] :: Newer(f, e)
  {
    var above := Above(Elements(sorted), e);
    SortedCardinality(sorted);
    CardinalityBound(above, Elements(sorted));
    forall i | 0 <= i < capacity ensures Newer(sorted[i], e) {
      if !Newer(sorted[i], e) {
        assert above <= Elements(sorted[..i]) by {
          forall f | f in above ensures f in Elements(sorted[..i]) {
            var k :| 0 <= k < |sorted| && sorted[k] == f;
            assert k > i ==> Newer(sorted[i], f);
            assert sorted[..i][k] == f;
          }
        }
        SortedCardinality(sorted[..i]);
        CardinalityBound(above, Elements(sorted[..i]));
      }
    }
  }

  /** A history just truncated is a tracking buffer for the next batch. */
  lemma HistoryTracks(h: seq<Event>, offered: set<Event>, capacity: nat)
    requires Minted(offered) && IsHistory(h, offered, capacity)
    ensures Tracks(Elements(h), offered, capacity)
  {
    forall e | e in Canonical(offered) && e !in Elements(h) ensures |Above(Elements(h), e)| >= capacity {
      assert Above(Elements(h), e) == Elements(h);
      SortedCardinality(h);
    }
    forall e, f | e in h && f in h && KeyOf(e).Some? && KeyOf(e) == KeyOf(f) ensures e == f {
      assert e in Elements(h) && f in Elements(h);
      assert e != f ==> Superseded(e, f) || Superseded(f, e);
    }
  }

  // ---------------------------------------------------------------- the class

  function InsertNewest(x: Entry, s: seq<Entry>): seq<Entry> {
    if s == [] || SortsBefore(x.event, s[0].event) then [x] + s else [s[0]] + InsertNewest(x, s[1..])
  }

  /** `sort_by` with the comparator of the source. */
  function SortNewest(s: seq<Entry>): seq<Entry> {
    if s == [] then [] else InsertNewest(s[0], SortNewest(s[1..]))
  }

  function Events(entries: seq<Entry>): (r: seq<Event>)
    ensures |r| == |entries| && forall i | 0 <= i < |r| :: r[i] == entries[i].event
  {
    seq(|entries|, i requires 0 <= i < |entries| => entries[i].event)
  }

  ghost predicate Distinct(entries: seq<Entry>) {
    forall i, j | 0 <= i < j < |entries| :: entries[i].event != entries[j].event
  }

  lemma {:induction false} InsertNewestCorrect(x: Entry, s: seq<Entry>)
    requires NewestFirst(Events(s))
    requires forall y | y in s :: Newer(x.event, y.event) || Newer(y.event, x.event)
    ensures NewestFirst(Events(InsertNewest(x, s)))
    ensures forall y :: y in InsertNewest(x, s) <==> y == x || y in s
  {
    if s != [] && !SortsBefore(x.event, s[0].event) {
      var tail := InsertNewest(x, s[1..]);
      assert Events(s)[1..] == Events(s[1..]);
      InsertNewestCorrect(x, s[1..]);
      forall k | 0 <= k < |tail| ensures Newer(s[0].event, tail[k].event) {
        assert tail[k] in tail;
        if tail[k] != x {
          var m :| 0 <= m < |s[1..]| && s[1..][m] == tail[k];
          assert Newer(Events(s)[0], Events(s)[m + 1]);
        }
      }
    }
  }

  lemma {:induction false} SortNewestCorrect(s: seq<Entry>)
    requires Distinct(s) && Minted(set y | y in s :: y.event)
    ensures NewestFirst(Events(SortNewest(s)))
    ensures forall y :: y in SortNewest(s) <==> y in s
  {
    if s != [] {
      assert (set y | y in s[1..] :: y.event) <= set y | y in s :: y.event;
      SortNewestCorrect(s[1..]);
      forall y | y in SortNewest(s[1..]) ensures Newer(s[0].event, y.event) || Newer(y.event, s[0].event) {
        var m :| 0 <= m < |s[1..]| && s[1..][m] == y;
        assert s[m + 1] == y && s[0].event != s[m + 1].event;
        assert s[0].event in (set y | y in s :: y.event) && y.event in (set y | y in s :: y.event);
      }
      InsertNewestCorrect(s[0], SortNewest(s[1..]));
    }
  }

  /** `retain`: drop the entries of one progress key. */
  function Retain(entries: seq<Entry>, key: Option<ProgressKey>): (r: seq<Entry>)
    ensures forall y :: y in r <==> y in entries && y.key != key
  {
    if entries == [] then []
    else (if entries[0].key != key then [entries[0]] else []) + Retain(entries[1..], key)
  }

  lemma {:induction false} RetainDistinct(entries: seq<Entry>, key: Option<ProgressKey>)
    requires Distinct(entries)
    ensures Distinct(Retain(entries, key))
  {
    if entries != [] {
      RetainDistinct(entries[1..], key);
      forall y | y in Retain(entries[1..], key) ensures y.event != entries[0].event {
        var m :| 0 <= m < |entries[1..]| && entries[1..][m] == y;
        assert entries[m + 1] == y;
      }
    }
  }

  ghost predicate Keyed(entries: seq<Entry>) {
    forall y | y in entries :: y.key == KeyOf(y.event)
  }

  lemma InElements(entries: seq<Entry>, e: Event)
    ensures e in Elements(Events(entries)) <==> exists i | 0 <= i < |entries| :: entries[i].event == e
  {
    if e in Elements(Events(entries)) {
      var i :| 0 <= i < |entries| && Events(entries)[i] == e;
    }
    if i :| 0 <= i < |entries| && entries[i].event == e {
      assert Events(entries)[i] == e;
    }
  }

  lemma InElementsKeyed(entries: seq<Entry>, e: Event)
    requires Keyed(entries)
    ensures e in Elements(Events(entries)) <==> Entry(e, KeyOf(e)) in entries
  {
    InElements(entries, e);
  }

  /** The two skips of the loop: a duplicate id and a stale progress event. */
  lemma SkipDuplicate(entries: seq<Entry>, offered: set<Event>, x: Event, i: nat)
    requires Minted(offered + {x}) && Elements(Events(entries)) <= offered
    requires i < |entries| && entries[i].event.id == x.id
    ensures offered + {x} == offered
  {
    InElements(entries, entries[i].event);
    assert x == entries[i].event;
  }

  lemma SkipStale(entries: seq<Entry>, offered: set<Event>, capacity: nat, x: Event, i: nat)
    requires Buffered(entries, offered, capacity) && Minted(offered + {x})
    requires i < |entries| && entries[i].key == KeyOf(x) != None
    requires entries[i].event != x && !Newer(x, entries[i].event)
    ensures Buffered(entries, offered + {x}, capacity)
  {
    InElements(entries, entries[i].event);
    StaleKeepsCanonical(offered, x, entries[i].event);
  }

  /** The buffer of `merge` between two offers. */
  ghost predicate Buffered(entries: seq<Entry>, offered: set<Event>, capacity: nat) {
    Keyed(entries) && Distinct(entries) && Minted(offered) && Tracks(Elements(Events(entries)), offered, capacity)
  }

  lemma AcceptedElements(entries: seq<Entry>, x: Event)
    requires Keyed(entries)
    ensures var buffer := Elements(Events(entries));
      Elements(Events(Kept(entries, x) + [Entry(x, KeyOf(x))])) == buffer - SameKey(buffer, x) + {x}
  {
    var buffer, r := Elements(Events(entries)), Kept(entries, x) + [Entry(x, KeyOf(x))];
    forall e ensures e in Elements(Events(r)) <==> e in buffer - SameKey(buffer, x) + {x} {
      InElementsKeyed(r, e);
      InElementsKeyed(entries, e);
    }
  }

  function Kept(entries: seq<Entry>, x: Event): seq<Entry> {
    if KeyOf(x).Some? then Retain(entries, KeyOf(x)) else entries
  }

  lemma AcceptedDistinct(entries: seq<Entry>, x: Event)
    requires Distinct(entries) && forall y | y in entries :: y.event != x
    ensures Distinct(Kept(entries, x) + [Entry(x, KeyOf(x))])
  {
    RetainDistinct(entries, KeyOf(x));
    forall y | y in Kept(entries, x) ensures y.event != x {
      assert y in entries;
    }
  }

  /** The accepting path of the loop. */
  lemma Accept(entries: seq<Entry>, offered: set<Event>, capacity: nat, x: Event)
    requires Buffered(entries, offered, capacity) && Minted(offered + {x})
    requires forall y | y in entries :: y.event != x
    requires KeyOf(x).Some? ==> forall y | y in entries && y.key == KeyOf(x) :: Newer(x, y.event)
    ensures Buffered(Kept(entries, x) + [Entry(x, KeyOf(x))], offered + {x}, capacity)
  {
    var buffer := Elements(Events(entries));
    AcceptedDistinct(entries, x);
    AcceptedElements(entries, x);
    InElementsKeyed(entries, x);
    forall g | g in SameKey(buffer, x) ensures Newer(x, g) {
      InElementsKeyed(entries, g);
    }
    AcceptKeepsTracking(buffer, offered, x, capacity);
  }

  lemma SortAndTruncate(entries: seq<Entry>, offered: set<Event>, capacity: nat)
    requires Buffered(entries, offered, capacity)
    ensures var h := SortNewest(entries)[..Min(|SortNewest(entries)|, capacity)];
      Keyed(h) && IsHistory(Events(h), offered, capacity)
  {
    var sorted := SortNewest(entries);
    forall y | y in entries ensures y.event in offered {
      InElementsKeyed(entries, y.event);
    }
    SortNewestCorrect(entries);
    forall e ensures e in Elements(Events(sorted)) <==> e in Elements(Events(entries)) {
      InElementsKeyed(sorted, e);
      InElementsKeyed(entries, e);
    }
    assert Elements(Events(sorted)) == Elements(Events(entries));
    TruncatedIsHistory(Events(sorted), offered, capacity);
    var h := sorted[..Min(|sorted|, capacity)];
    assert Events(h) == Events(sorted)[..Min(|sorted|, capacity)];
  }

  lemma HistoryBuffered(entries: seq<Entry>, offered: set<Event>, capacity: nat)
    requires Keyed(entries) && Minted(offered) && IsHistory(Events(entries), offered, capacity)
    ensures Buffered(entries, offered, capacity)
  {
    HistoryTracks(Events(entries), offered, capacity);
    forall i, j | 0 <= i < j < |entries| ensures entries[i].event != entries[j].event {
      assert Newer(Events(entries)[i], Events(entries)[j]);
    }
  }

  lemma TakeOne(offered: set<Event>, batch: seq<Event>, n: nat)
    requires n < |batch| && Minted(offered + Elements(batch))
    ensures Elements(batch[..n + 1]) == Elements(batch[..n]) + {batch[n]}
    ensures Minted(offered + Elements(batch[..n]) + {batch[n]})
  {
    assert offered + Elements(batch[..n]) + {batch[n]} <= offered + Elements(batch);
  }

  class History {
    var events: seq<Entry>
    const capacity: nat
    ghost var offered: set<Event>

    ghost predicate Valid()
      reads this
    {
      Keyed(events) && Minted(offered) && IsHistory(Events(events), offered, capacity)
    }

    constructor (capacity: nat)
      ensures Valid() && offered == {} && this.capacity == capacity
    {
      this.capacity := capacity;
      events := [];
      offered := {};
    }

    method Merge(batch: seq<Event>)
      requires Valid() && Minted(offered + Elements(batch))
      modifies this
      ensures Valid() && offered == old(offered) + Elements(batch)
    {
      HistoryBuffered(events, offered, capacity);
      for n := 0 to |batch|
        invariant offered == old(offered) + Elements(batch[..n])
        invariant Buffered(events, offered, capacity)
      {
        var event := batch[n];
        TakeOne(old(offered), batch, n);
        if i :| 0 <= i < |events| && events[i].event.id == event.id {
          SkipDuplicate(events, offered, event, i);
          continue;
        }
        var key, kept := KeyOf(event), events;
        if key.Some? {
          if i :| 0 <= i < |events| && events[i].key == key && !Newer(event, events[i].event) {
            SkipStale(events, offered, capacity, event, i);
            offered := offered + {event};
            continue;
          }
          kept := Retain(events, key);
        }
        Accept(events, offered, capacity, event);
        offered := offered + {event};
        events := kept + [Entry(event, key)];
      }
      assert batch[..|batch|] == batch;
      SortAndTruncate(events, offered, capacity);
      events := SortNewest(events);
      events := events[..Min(|events|, capacity)];
    }

    method Snapshot() returns (r: seq<Event>)
      requires Valid()
      ensures IsHistory(r, offered, capacity) && r == Events(events)
    {
      r := Events(events);
    }
  }

  ghost function Offered(batches: seq<seq<Event>>): set<Event> {
    set b, e | b in batches && e in b :: e
  }

  /** Any run of merges: the snapshot is the history of everything offered, however it was batched. */
  method Replay(batches: seq<seq<Event>>, capacity: nat) returns (snapshot: seq<Event>)
    requires Minted(Offered(batches))
    ensures IsHistory(snapshot, Offered(batches), capacity)
  {
    var history := new History(capacity);
    for n := 0 to |batches|
      invariant fresh(history) && history.Valid() && history.capacity == capacity
      invariant history.offered == Offered(batches[..n])
    {
      assert Offered(batches[..n]) + Elements(batches[n]) <= Offered(batches);
      history.Merge(batches[n]);
      assert Offered(batches[..n + 1]) == Offered(batches[..n]) + Elements(batches[n]);
    }
    assert batches[..|batches|] == batches;
    snapshot := history.Snapshot();
  }
}
