/** The file preview cache and its quota (windows/VniDrop.Core/FilePreviewStore.cs), with file
    operations that succeed. */
module PreviewStore {
  import opened Common

  const MAX_ENTRY_BYTES := 512 * 1024
  const MAX_TOTAL_BYTES := 20 * 1024 * 1024

  type Bytes = seq<int>
  type Name = string

  datatype File = File(bytes: Bytes, time: int)
  type Directory = map<Name, File>

  /** How preview files are named: `idOf` is None for names the cache ignores. */
  datatype Naming = Naming(pathOf: nat -> Name, idOf: Name -> Option<nat>)

  ghost predicate Consistent(naming: Naming) {
    forall id: nat :: naming.idOf(naming.pathOf(id)) == Some(id)
  }

  predicate IsSupported(b: Bytes) {
    || [0x89, 0x50, 0x4e, 0x47, 0x0d, 0x0a, 0x1a, 0x0a] <= b
    || [0xff, 0xd8, 0xff] <= b
    || (|b| >= 12 && b[..4] == [0x52, 0x49, 0x46, 0x46] && b[8..12] == [0x57, 0x45, 0x42, 0x50])
  }

  predicate EntrySize(b: Bytes) {
    0 < |b| <= MAX_ENTRY_BYTES
  }

  // ---------------------------------------------------------------- order and quota

  /** One cached file as the pruning loops see it. */
  datatype Entry = Entry(name: Name, length: nat, time: int)

  ghost function Sum(s: seq<Entry>): nat {
    if s == [] then 0 else s[0].length + Sum(s[1..])
  }

  ghost predicate OldestFirst(s: seq<Entry>) {
    forall i, j | 0 <= i < j < |s| :: s[i].time <= s[j].time
  }

  ghost predicate DistinctNames(s: seq<Entry>) {
    forall i, j | 0 <= i < j < |s| :: s[i].name != s[j].name
  }

  function Others(s: seq<Entry>, kept: Option<Name>): (r: seq<Entry>)
    ensures forall e :: e in r <==> e in s && Some(e.name) != kept
  {
    if s == [] then []
    else if Some(s[0].name) == kept then Others(s[1..], kept)
    else [s[0]] + Others(s[1..], kept)
  }

  /** The second loop of `Prune`, as the entries it deletes. */
  ghost function Evicted(order: seq<Entry>, total: int, kept: Option<Name>): seq<Entry> {
    if order == [] || total <= MAX_TOTAL_BYTES then []
    else if Some(order[0].name) == kept then Evicted(order[1..], total, kept)
    else [order[0]] + Evicted(order[1..], total - order[0].length, kept)
  }

  /** `run` is the shortest run of `candidates` from the oldest on that brings `total` to the quota,
      or all of them when none does. */
  ghost predicate IsShortestRun(run: seq<Entry>, candidates: seq<Entry>, total: int) {
    && run <= candidates
    && (total - Sum(run) <= MAX_TOTAL_BYTES || run == candidates)
    && forall m | 0 <= m < |run| :: total - Sum(candidates[..m]) > MAX_TOTAL_BYTES
  }

  lemma RunGrows(x: Entry, run: seq<Entry>, rest: seq<Entry>, total: int)
    requires total > MAX_TOTAL_BYTES && IsShortestRun(run, rest, total - x.length)
    ensures IsShortestRun([x] + run, [x] + rest, total)
  {
    var candidates := [x] + rest;
    assert ([x] + run)[1..] == run;
    forall m | 0 <= m < |run| + 1 ensures total - Sum(candidates[..m]) > MAX_TOTAL_BYTES {
      if m > 0 {
        assert candidates[..m][1..] == rest[..m - 1];
      }
    }
  }

  lemma {:induction false} EvictedIsShortestRun(order: seq<Entry>, total: int, kept: Option<Name>)
    ensures IsShortestRun(Evicted(order, total, kept), Others(order, kept), total)
  {
    if order != [] && total > MAX_TOTAL_BYTES {
      if Some(order[0].name) == kept {
        EvictedIsShortestRun(order[1..], total, kept);
      } else {
        EvictedIsShortestRun(order[1..], total - order[0].length, kept);
        RunGrows(order[0], Evicted(order[1..], total - order[0].length, kept), Others(order[1..], kept), total);
      }
    }
  }

  lemma {:induction false} SumOthers(order: seq<Entry>, kept: Option<Name>)
    requires DistinctNames(order)
    requires forall e | e in order :: e.length <= MAX_ENTRY_BYTES
    ensures Sum(order) - Sum(Others(order, kept)) <= MAX_ENTRY_BYTES
  {
    if order != [] {
      if Some(order[0].name) == kept {
        assert forall e | e in order[1..] :: Some(e.name) != kept;
        OthersAll(order[1..], kept);
      } else {
        SumOthers(order[1..], kept);
        assert Others(order, kept)[1..] == Others(order[1..], kept);
      }
    }
  }

  lemma {:induction false} OthersAll(s: seq<Entry>, kept: Option<Name>)
    requires forall e | e in s :: Some(e.name) != kept
    ensures Others(s, kept) == s
  {
    if s != [] {
      OthersAll(s[1..], kept);
    }
  }

  /** The evictions reach the quota, whatever entry is kept. */
  lemma EvictionsReachQuota(order: seq<Entry>, kept: Option<Name>)
    requires DistinctNames(order)
    requires forall e | e in order :: e.length <= MAX_ENTRY_BYTES
    ensures Sum(order) - Sum(Evicted(order, Sum(order), kept)) <= MAX_TOTAL_BYTES
  {
    EvictedIsShortestRun(order, Sum(order), kept);
    SumOthers(order, kept);
  }

  // ---------------------------------------------------------------- the store

  function Insert(e: Entry, s: seq<Entry>): seq<Entry> {
    if s == [] || e.time < s[0].time then [e] + s else [s[0]] + Insert(e, s[1..])
  }

  /** `OrderBy(file => file.LastWriteTimeUtc)`, which is stable. */
  function ByTime(s: seq<Entry>): seq<Entry> {
    if s == [] then [] else Insert(s[|s| - 1], ByTime(s[..|s| - 1]))
  }

  lemma {:induction false} InsertOldestFirst(e: Entry, s: seq<Entry>)
    requires OldestFirst(s) && DistinctNames(s) && forall x | x in s :: x.name != e.name
    ensures OldestFirst(Insert(e, s)) && DistinctNames(Insert(e, s))
    ensures forall x :: x in Insert(e, s) <==> x == e || x in s
  {
    if s != [] && e.time >= s[0].time {
      InsertOldestFirst(e, s[1..]);
      var tail := Insert(e, s[1..]);
      forall k | 0 <= k < |tail| ensures s[0].time <= tail[k].time && s[0].name != tail[k].name {
        assert tail[k] in tail;
      }
    }
  }

  lemma {:induction false} ByTimeOldestFirst(s: seq<Entry>)
    requires DistinctNames(s)
    ensures OldestFirst(ByTime(s)) && DistinctNames(ByTime(s))
    ensures forall x :: x in ByTime(s) <==> x in s
  {
    if s != [] {
      var init := s[..|s| - 1];
      ByTimeOldestFirst(init);
      assert s == init + [s[|s| - 1]];
      InsertOldestFirst(s[|s| - 1], ByTime(init));
    }
  }

  function EntryOf(d: Directory, name: Name): Entry
    requires name in d
  {
    Entry(name, |d[name].bytes|, d[name].time)
  }

  predicate Keeps(f: File, id: nat, ids: Option<set<nat>>) {
    EntrySize(f.bytes) && (ids.Some? ==> id in ids.value)
  }

  /** A file is worth keeping if it is not empty, has at most 512 KiB and belongs to a wanted transfer. */
  lemma KeepsIff(f: File, id: nat, ids: Option<set<nat>>)
    ensures Keeps(f, id, ids) <==> 1 <= |f.bytes| <= 524_288 && (ids == None || id in ids.value)
  {
  }

  /** PNG, JPEG and WebP are told by their first bytes. */
  lemma SupportedIff(b: Bytes)
    ensures IsSupported(b) <==>
      || (|b| >= 8 && b[0] == 0x89 && b[1] == 'P' as int && b[2] == 'N' as int && b[3] == 'G' as int
          && b[4] == 13 && b[5] == 10 && b[6] == 26 && b[7] == 10)
      || (|b| >= 3 && b[0] == 255 && b[1] == 216 && b[2] == 255)
      || (|b| >= 12 && b[0] == 'R' as int && b[1] == 'I' as int && b[2] == 'F' as int && b[3] == 'F' as int
          && b[8] == 'W' as int && b[9] == 'E' as int && b[10] == 'B' as int && b[11] == 'P' as int)
  {
  }

  function AtTime(s: seq<Entry>, time: int): seq<Entry> {
    if s == [] then [] else (if s[0].time == time then [s[0]] else []) + AtTime(s[1..], time)
  }

  lemma {:induction false} AtTimeConcat(a: seq<Entry>, b: seq<Entry>, time: int)
    ensures AtTime(a + b, time) == AtTime(a, time) + AtTime(b, time)
  {
    if a == [] {
      assert a + b == b;
    } else {
      var first, rest := if a[0].time == time then [a[0]] else [], a[1..];
      AtTimeConcat(rest, b, time);
      assert (a + b)[1..] == rest + b;
      assert AtTime(a + b, time) == first + AtTime(rest + b, time);
    }
  }

  lemma {:induction false} AtTimeNone(s: seq<Entry>, time: int)
    requires forall i | 0 <= i < |s| :: s[i].time != time
    ensures AtTime(s, time) == []
  {
    if s != [] {
      AtTimeNone(s[1..], time);
    }
  }

  lemma {:induction false} InsertAtTime(e: Entry, s: seq<Entry>, time: int)
    requires OldestFirst(s)
    ensures AtTime(Insert(e, s), time) == AtTime(s, time) + AtTime([e], time)
  {
    if s == [] || e.time < s[0].time {
      AtTimeConcat([e], s, time);
      if e.time == time {
        AtTimeNone(s, time);
      }
      assert [e] + s == Insert(e, s);
    } else {
      InsertAtTime(e, s[1..], time);
      AtTimeConcat([s[0]], Insert(e, s[1..]), time);
      AtTimeConcat([s[0]], s[1..], time);
      assert s == [s[0]] + s[1..];
    }
  }

  /** The sort is stable: files of one time keep their order. */
  lemma {:induction false} ByTimeIsStable(s: seq<Entry>, time: int)
    requires DistinctNames(s)
    ensures AtTime(ByTime(s), time) == AtTime(s, time)
  {
    if s != [] {
      var init := s[..|s| - 1];
      ByTimeOldestFirst(init);
      ByTimeIsStable(init, time);
      InsertAtTime(s[|s| - 1], ByTime(init), time);
      AtTimeConcat(init, [s[|s| - 1]], time);
      assert s == init + [s[|s| - 1]];
    }
  }

  ghost function Names(s: seq<Entry>): set<Name> {
    set e | e in s :: e.name
  }

  /** `valid` lists the cached files of d worth keeping, oldest first. */
  ghost predicate ListsValid(valid: seq<Entry>, d: Directory, naming: Naming, ids: Option<set<nat>>) {
    && OldestFirst(valid) && DistinctNames(valid)
    && (forall e | e in valid :: e.name in d && e == EntryOf(d, e.name))
    && (forall name :: name in Names(valid) <==>
          name in d && naming.idOf(name).Some? && Keeps(d[name], naming.idOf(name).value, ids))
  }

  /** What one `Prune` leaves of `before`: files it ignores stay, cached files that are unusable or
      not among `ids` go, and of the rest the shortest oldest-first run that reaches the quota. */
  ghost predicate IsPruned(before: Directory, after: Directory, naming: Naming, kept: Option<Name>, valid: seq<Entry>) {
    after == map name | name in before && (naming.idOf(name).None?
      || (name in Names(valid) && name !in Names(Evicted(valid, Sum(valid), kept)))) :: before[name]
  }

  lemma {:induction false} SumAppend(s: seq<Entry>, e: Entry)
    ensures Sum(s + [e]) == Sum(s) + e.length
  {
    if s != [] {
      SumAppend(s[1..], e);
      assert (s + [e])[1..] == s[1..] + [e];
    }
  }

  /** The entries `GetFiles` and the first `Where` produce, in directory order. */
  function Cached(listing: seq<Name>, d: Directory, naming: Naming): (r: seq<Entry>)
    requires forall name | name in listing :: name in d
    ensures forall e :: e in r <==> e.name in listing && naming.idOf(e.name).Some? && e == EntryOf(d, e.name)
  {
    if listing == [] then []
    else if naming.idOf(listing[0]).None? then Cached(listing[1..], d, naming)
    else [EntryOf(d, listing[0])] + Cached(listing[1..], d, naming)
  }

  lemma {:induction false} CachedDistinct(listing: seq<Name>, d: Directory, naming: Naming)
    requires forall name | name in listing :: name in d
    requires forall i, j | 0 <= i < j < |listing| :: listing[i] != listing[j]
    ensures DistinctNames(Cached(listing, d, naming))
  {
    if listing != [] {
      CachedDistinct(listing[1..], d, naming);
      assert listing[0] !in listing[1..];
    }
  }

  /** The entries the first loop retains. */
  function Usable(files: seq<Entry>, d: Directory, naming: Naming, ids: Option<set<nat>>): (r: seq<Entry>)
    requires forall e | e in files :: e.name in d && naming.idOf(e.name).Some?
    ensures forall e :: e in r <==> e in files && Keeps(d[e.name], naming.idOf(e.name).value, ids)
  {
    if files == [] then []
    else
      var last := files[|files| - 1];
      Usable(files[..|files| - 1], d, naming, ids)
      + if Keeps(d[last.name], naming.idOf(last.name).value, ids) then [last] else []
  }

  lemma {:induction false} UsableSorted(files: seq<Entry>, d: Directory, naming: Naming, ids: Option<set<nat>>)
    requires forall e | e in files :: e.name in d && naming.idOf(e.name).Some?
    requires OldestFirst(files) && DistinctNames(files)
    ensures OldestFirst(Usable(files, d, naming, ids)) && DistinctNames(Usable(files, d, naming, ids))
  {
    if files != [] {
      var init := files[..|files| - 1];
      UsableSorted(init, d, naming, ids);
      var last := files[|files| - 1];
      forall e | e in Usable(init, d, naming, ids) ensures e.time <= last.time && e.name != last.name {
        assert e in init;
      }
      AppendSorted(Usable(init, d, naming, ids), last);
    }
  }

  lemma AppendSorted(s: seq<Entry>, e: Entry)
    requires OldestFirst(s) && DistinctNames(s) && forall x | x in s :: x.time <= e.time && x.name != e.name
    ensures OldestFirst(s + [e]) && DistinctNames(s + [e])
  {
  }

  /** The names the first loop deletes. */
  ghost function Unusable(files: seq<Entry>, d: Directory, naming: Naming, ids: Option<set<nat>>): set<Name>
    requires forall e | e in files :: e.name in d && naming.idOf(e.name).Some?
  {
    Names(files) - Names(Usable(files, d, naming, ids))
  }

  lemma UsableStep(files: seq<Entry>, i: nat, d: Directory, naming: Naming, ids: Option<set<nat>>,
                   retained: seq<Entry>, gone: set<Name>)
    requires forall e | e in files :: e.name in d && naming.idOf(e.name).Some?
    requires DistinctNames(files) && i < |files|
    requires (forall e | e in files[..i] :: e in files) && (forall e | e in files[..i + 1] :: e in files)
    requires retained == Usable(files[..i], d, naming, ids) && gone == Unusable(files[..i], d, naming, ids)
    ensures files[i].name !in gone
    ensures var e := files[i];
      if Keeps(d[e.name], naming.idOf(e.name).value, ids) then
        Usable(files[..i + 1], d, naming, ids) == retained + [e] && Unusable(files[..i + 1], d, naming, ids) == gone
      else
        && Usable(files[..i + 1], d, naming, ids) == retained
        && Unusable(files[..i + 1], d, naming, ids) == gone + {e.name}
  {
    assert files[..i + 1] == files[..i] + [files[i]];
    UsableAppend(files[..i], files[i], d, naming, ids);
  }

  lemma UsableAppend(before: seq<Entry>, e: Entry, d: Directory, naming: Naming, ids: Option<set<nat>>)
    requires forall x | x in before + [e] :: x.name in d && naming.idOf(x.name).Some?
    requires DistinctNames(before + [e]) && forall x | x in before :: x in before + [e]
    ensures e.name !in Unusable(before, d, naming, ids)
    ensures var r, g := Usable(before, d, naming, ids), Unusable(before, d, naming, ids);
      if Keeps(d[e.name], naming.idOf(e.name).value, ids) then
        Usable(before + [e], d, naming, ids) == r + [e] && Unusable(before + [e], d, naming, ids) == g
      else
        Usable(before + [e], d, naming, ids) == r && Unusable(before + [e], d, naming, ids) == g + {e.name}
  {
    assert (before + [e])[..|before|] == before;
    NamesAppend(before, e, Usable(before, d, naming, ids));
  }

  lemma NamesAppend(before: seq<Entry>, e: Entry, retained: seq<Entry>)
    requires DistinctNames(before + [e]) && forall x | x in retained :: x in before
    ensures Names(before + [e]) == Names(before) + {e.name} && Names(retained + [e]) == Names(retained) + {e.name}
    ensures e.name !in Names(before) && e.name !in Names(retained)
  {
    forall x | x in before ensures x.name != e.name {
      var k :| 0 <= k < |before| && before[k] == x;
      assert (before + [e])[k] == x && (before + [e])[|before|] == e;
    }
  }

  lemma DropOne(d: Directory, gone: set<Name>, name: Name)
    ensures d - gone - {name} == d - (gone + {name})
  {
  }

  lemma RemoveTwice(d: Directory, all: set<Name>, valid: set<Name>, gone: set<Name>)
    requires gone <= valid <= all
    ensures d - (all - valid) - gone ==
      map name | name in d && (name !in all || (name in valid && name !in gone)) :: d[name]
  {
  }

  lemma UsableLists(files: seq<Entry>, listing: seq<Name>, d: Directory, naming: Naming, ids: Option<set<nat>>)
    requires Enumerates(listing, d) && OldestFirst(files) && DistinctNames(files)
    requires forall e :: e in files <==> e in Cached(listing, d, naming)
    ensures ListsValid(Usable(files, d, naming, ids), d, naming, ids)
  {
    UsableSorted(files, d, naming, ids);
    var valid := Usable(files, d, naming, ids);
    forall name | name in d && naming.idOf(name).Some? && Keeps(d[name], naming.idOf(name).value, ids)
      ensures name in Names(valid)
    {
      assert EntryOf(d, name) in valid;
    }
  }

  lemma EvictedNames(valid: seq<Entry>, kept: Option<Name>)
    ensures Names(Evicted(valid, Sum(valid), kept)) <= Names(valid)
  {
    EvictedIsShortestRun(valid, Sum(valid), kept);
    forall e | e in Evicted(valid, Sum(valid), kept) ensures e in valid {
      assert e in Others(valid, kept);
    }
  }

  lemma PrunedDirectory(files: seq<Entry>, listing: seq<Name>, d: Directory, naming: Naming, ids: Option<set<nat>>,
                        kept: Option<Name>)
    requires Enumerates(listing, d)
    requires forall e :: e in files <==> e in Cached(listing, d, naming)
    ensures var valid := Usable(files, d, naming, ids);
      IsPruned(d, d - Unusable(files, d, naming, ids) - Names(Evicted(valid, Sum(valid), kept)), naming, kept, valid)
  {
    var valid := Usable(files, d, naming, ids);
    var gone, all := Names(Evicted(valid, Sum(valid), kept)), Names(files);
    EvictedNames(valid, kept);
    assert forall e | e in valid :: e in files;
    RemoveTwice(d, all, Names(valid), gone);
    forall name | name in d ensures name !in all <==> naming.idOf(name).None? {
      assert naming.idOf(name).Some? ==> EntryOf(d, name) in files;
    }
  }

  /** The entries the second loop leaves. */
  ghost function Left(order: seq<Entry>, total: int, kept: Option<Name>): seq<Entry> {
    if order == [] || total <= MAX_TOTAL_BYTES then order
    else if Some(order[0].name) == kept then [order[0]] + Left(order[1..], total, kept)
    else Left(order[1..], total - order[0].length, kept)
  }

  lemma {:induction false} LeftSum(order: seq<Entry>, total: int, kept: Option<Name>)
    ensures Sum(Left(order, total, kept)) + Sum(Evicted(order, total, kept)) == Sum(order)
  {
    if order != [] && total > MAX_TOTAL_BYTES {
      var keep, rest := Some(order[0].name) == kept, order[1..];
      LeftSum(rest, if keep then total else total - order[0].length, kept);
      if keep {
        assert ([order[0]] + Left(rest, total, kept))[1..] == Left(rest, total, kept);
      } else {
        var evicted := Evicted(rest, total - order[0].length, kept);
        assert ([order[0]] + evicted)[1..] == evicted;
      }
    }
  }

  lemma {:induction false} LeftMembers(order: seq<Entry>, total: int, kept: Option<Name>)
    requires DistinctNames(order)
    ensures forall e :: e in Left(order, total, kept) <==> e in order && e !in Evicted(order, total, kept)
    ensures forall e | e in Evicted(order, total, kept) :: e in order && Some(e.name) != kept
  {
    if order != [] && total > MAX_TOTAL_BYTES {
      var keep, rest := Some(order[0].name) == kept, order[1..];
      LeftMembers(rest, if keep then total else total - order[0].length, kept);
      assert order[0] !in rest && order == [order[0]] + rest;
    }
  }

  lemma {:induction false} LeftSorted(order: seq<Entry>, total: int, kept: Option<Name>)
    requires DistinctNames(order) && OldestFirst(order)
    ensures DistinctNames(Left(order, total, kept)) && OldestFirst(Left(order, total, kept))
  {
    if order != [] && total > MAX_TOTAL_BYTES {
      var keep, rest := Some(order[0].name) == kept, order[1..];
      var total' := if keep then total else total - order[0].length;
      LeftSorted(rest, total', kept);
      LeftMembers(rest, total', kept);
      var left := Left(rest, total', kept);
      forall k | 0 <= k < |left| ensures left[k].name != order[0].name && order[0].time <= left[k].time {
        assert left[k] in left && left[k] in rest;
      }
    }
  }

  /** After pruning every cached file is usable and wanted, and together they fit the quota. */
  lemma PrunedWithinQuota(before: Directory, after: Directory, naming: Naming, ids: Option<set<nat>>,
                          kept: Option<Name>, valid: seq<Entry>)
    requires ListsValid(valid, before, naming, ids) && IsPruned(before, after, naming, kept, valid)
    ensures var left := Left(valid, Sum(valid), kept);
      ListsValid(left, after, naming, ids) && Sum(left) <= MAX_TOTAL_BYTES
    ensures forall name | name in after && naming.idOf(name).Some? :: Keeps(after[name], naming.idOf(name).value, ids)
    ensures kept.Some? && kept.value in Names(valid) ==> kept.value in after && after[kept.value] == before[kept.value]
  {
    var left, gone := Left(valid, Sum(valid), kept), Evicted(valid, Sum(valid), kept);
    LeftSum(valid, Sum(valid), kept);
    LeftMembers(valid, Sum(valid), kept);
    LeftSorted(valid, Sum(valid), kept);
    forall e | e in valid ensures e.length <= MAX_ENTRY_BYTES {
      assert e.name in Names(valid);
    }
    EvictionsReachQuota(valid, kept);
    forall e | e in valid ensures e in gone <==> e.name in Names(gone) {
      if e.name in Names(gone) {
        var g :| g in gone && g.name == e.name;
        assert g in valid;
      }
    }
    forall name ensures name in Names(left) <==> name in Names(valid) && name !in Names(gone) {
      if name in Names(valid) {
        var e :| e in valid && e.name == name;
        assert e in left <==> e !in gone;
      }
    }
  }

  class FilePreviewStore {
    const naming: Naming
    var directory: Directory

    constructor (naming: Naming, directory: Directory)
      ensures this.naming == naming && this.directory == directory
    {
      this.naming, this.directory := naming, directory;
    }

    method Read(id: nat) returns (r: Option<Bytes>)
      ensures r == if naming.pathOf(id) in directory
        && EntrySize(directory[naming.pathOf(id)].bytes) && IsSupported(directory[naming.pathOf(id)].bytes)
        then Some(directory[naming.pathOf(id)].bytes) else None
    {
      var path := naming.pathOf(id);
      if path !in directory || !EntrySize(directory[path].bytes) || !IsSupported(directory[path].bytes) {
        return None;
      }
      return Some(directory[path].bytes);
    }

    function PathOf(id: Option<nat>): Option<Name> {
      if id.Some? then Some(naming.pathOf(id.value)) else None
    }

    /** `listing` is the directory in the order the file system enumerates it. */
    method Prune(ids: Option<set<nat>>, keptId: Option<nat>, listing: seq<Name>) returns (ghost valid: seq<Entry>)
      requires Enumerates(listing, directory)
      modifies this
      ensures ListsValid(valid, old(directory), naming, ids)
      ensures IsPruned(old(directory), directory, naming, PathOf(keptId), valid)
    {
      var cached := Cached(listing, directory, naming);
      CachedDistinct(listing, directory, naming);
      ByTimeOldestFirst(cached);
      var files := ByTime(cached);
      UsableLists(files, listing, directory, naming, ids);
      PrunedDirectory(files, listing, directory, naming, ids, PathOf(keptId));
      var retained, total := DeleteUnusable(files, ids);
      valid := retained;
      EvictOldest(retained, total, PathOf(keptId));
    }

    /** A usable preview is stored whatever else has to go, and the cache then fits its quota; `now` is
        the new write time and `listing` the directory once the file is in place. */
    method Save(id: nat, bytes: Bytes, now: int, listing: seq<Name>) returns (ghost valid: seq<Entry>)
      requires Consistent(naming) && Enumerates(listing, directory[naming.pathOf(id) := File(bytes, now)])
      modifies this
      ensures !(EntrySize(bytes) && IsSupported(bytes)) ==> directory == old(directory)
      ensures EntrySize(bytes) && IsSupported(bytes) ==>
        var written := old(directory)[naming.pathOf(id) := File(bytes, now)];
        && naming.pathOf(id) in directory && directory[naming.pathOf(id)].bytes == bytes
        && ListsValid(valid, written, naming, None)
        && IsPruned(written, directory, naming, Some(naming.pathOf(id)), valid)
        && ListsValid(Left(valid, Sum(valid), Some(naming.pathOf(id))), directory, naming, None)
        && Sum(Left(valid, Sum(valid), Some(naming.pathOf(id)))) <= 20_971_520
    {
      valid := [];
      if !EntrySize(bytes) || !IsSupported(bytes) {
        return;
      }
      directory := directory[naming.pathOf(id) := File(bytes, now)];
      ghost var written := directory;
      valid := Prune(None, Some(id), listing);
      PrunedWithinQuota(written, directory, naming, None, Some(naming.pathOf(id)), valid);
    }

    method Retain(ids: set<nat>, listing: seq<Name>) returns (ghost valid: seq<Entry>)
      requires Enumerates(listing, directory)
      modifies this
      ensures ListsValid(valid, old(directory), naming, Some(ids))
      ensures IsPruned(old(directory), directory, naming, None, valid)
      ensures forall name | name in directory && naming.idOf(name).Some? :: naming.idOf(name).value in ids
      ensures Sum(Left(valid, Sum(valid), None)) <= 20_971_520
    {
      valid := Prune(Some(ids), None, listing);
      PrunedWithinQuota(old(directory), directory, naming, Some(ids), None, valid);
    }

    /** The first loop of `Prune`. */
    method DeleteUnusable(files: seq<Entry>, ids: Option<set<nat>>) returns (retained: seq<Entry>, total: nat)
      requires DistinctNames(files)
      requires forall e | e in files ::
        e.name in directory && naming.idOf(e.name).Some? && e == EntryOf(directory, e.name)
      modifies this
      ensures retained == Usable(files, old(directory), naming, ids) && total == Sum(retained)
      ensures directory == old(directory) - Unusable(files, old(directory), naming, ids)
    {
      ghost var before := directory;
      ghost var gone: set<Name> := {};
      retained, total := [], 0;
      for i := 0 to |files|
        invariant retained == Usable(files[..i], before, naming, ids) && total == Sum(retained)
        invariant gone == Unusable(files[..i], before, naming, ids) && directory == before - gone
      {
        var file := files[i];
        assert file in files;
        UsableStep(files, i, before, naming, ids, retained, gone);
        if Keeps(directory[file.name], naming.idOf(file.name).value, ids) {
          SumAppend(retained, file);
          retained, total := retained + [file], total + file.length;
        } else {
          DropOne(before, gone, file.name);
          directory, gone := directory - {file.name}, gone + {file.name};
        }
      }
      assert files[..|files|] == files;
    }

    /** The second loop. */
    method EvictOldest(retained: seq<Entry>, sum: nat, kept: Option<Name>)
      requires sum == Sum(retained) && DistinctNames(retained)
      modifies this
      ensures directory == old(directory) - Names(Evicted(retained, sum, kept))
    {
      var total: int := sum;
      ghost var gone: seq<Entry> := [];
      assert retained[0..] == retained;
      for i := 0 to |retained|
        invariant gone + Evicted(retained[i..], total, kept) == Evicted(retained, sum, kept)
        invariant directory == old(directory) - Names(gone)
      {
        var file := retained[i];
        assert retained[i..][0] == file && retained[i..][1..] == retained[i + 1..];
        EvictStep(retained[i..], total, kept, gone);
        if total <= MAX_TOTAL_BYTES {
          return;
        }
        if kept == Some(file.name) {
          continue;
        }
        total := total - file.length;
        directory := directory - {file.name};
        DropFile(old(directory), gone, file);
        gone := gone + [file];
      }
    }
  }

  lemma EvictStep(order: seq<Entry>, total: int, kept: Option<Name>, gone: seq<Entry>)
    requires order != []
    ensures var rest, all := order[1..], gone + Evicted(order, total, kept);
      if total <= MAX_TOTAL_BYTES then all == gone
      else if Some(order[0].name) == kept then all == gone + Evicted(rest, total, kept)
      else all == gone + [order[0]] + Evicted(rest, total - order[0].length, kept)
  {
  }

  lemma DropFile(d: Directory, gone: seq<Entry>, e: Entry)
    ensures d - Names(gone) - {e.name} == d - Names(gone + [e])
  {
    assert Names(gone + [e]) == Names(gone) + {e.name};
  }

  ghost predicate Enumerates(listing: seq<Name>, d: Directory) {
    && (forall name :: name in listing <==> name in d)
    && forall i, j | 0 <= i < j < |listing| :: listing[i] != listing[j]
  }
}
