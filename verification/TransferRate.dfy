/** The sliding-window transfer rate (linux/src/progress.rs, `Rate`). Numbers are u64. */
module TransferRate {
  import opened Common


  datatype Progress = Progress(labelKey: string, bytes: Option<U64>, total: Option<U64>)
  datatype Sample = Sample(time: U64, bytes: U64)
  datatype Report = Report(rate: U64, eta: Option<U64>)

  function SaturatingSub(a: U64, b: U64): U64 {
    if a >= b then a - b else 0
  }

  function SaturatingMul(a: U64, b: U64): U64 {
    if a * b <= U64_MAX then a * b else U64_MAX
  }

  function DivCeil(a: U64, b: U64): (r: U64)
    requires b > 0
    ensures a > 0 ==> b * (r - 1) < a <= b * r
  {
    if a % b == 0 then a / b else a / b + 1
  }

  /** Times strictly increase and bytes never decrease. */
  ghost predicate Increasing(s: seq<Sample>) {
    forall i, j | 0 <= i < j < |s| :: s[i].time < s[j].time && s[i].bytes <= s[j].bytes
  }

  lemma {:induction false} SpanBound(s: seq<Sample>)
    requires Increasing(s) && s != []
    ensures s[|s| - 1].time - s[0].time >= |s| - 1
  {
    if |s| > 1 {
      SpanBound(s[1..]);
    }
  }

  /** What the window keeps of `all`: everything recent, and always the last two. */
  ghost predicate IsWindow(kept: seq<Sample>, all: seq<Sample>, now: U64) {
    && |kept| <= |all| && kept == all[|all| - |kept|..]
    && (|kept| <= 2 || now - kept[0].time <= 5000)
    && (|kept| < |all| ==> |kept| >= 2 && now - all[|all| - |kept| - 1].time > 5000)
  }

  lemma WindowSize(s: seq<Sample>, now: U64)
    requires Increasing(s) && (s != [] ==> s[|s| - 1].time <= now)
    requires |s| <= 2 || now - s[0].time <= 5000
    ensures |s| <= 5001
  {
    if s != [] {
      SpanBound(s);
    }
  }

  /** The report promised from the oldest sample of the window: nothing saturates but the product,
      and the remaining time is the exact ceiling. */
  ghost predicate IsReport(r: Option<Report>, first: Sample, now: U64, bytes: U64, total: Option<U64>)
    requires first.time <= now && first.bytes <= bytes && (total.Some? ==> bytes < total.value)
  {
    var elapsed, moved := now - first.time, bytes - first.bytes;
    if elapsed < 500 || moved * 1000 < elapsed then r.None?
    else
      && r.Some? && r.value.rate > 0
      && (moved * 1000 <= U64_MAX ==> r.value.rate == moved * 1000 / elapsed)
      && (r.value.eta.Some? <==> total.Some?)
      && (total.Some? ==>
            r.value.rate * (r.value.eta.value - 1) < total.value - bytes <= r.value.rate * r.value.eta.value)
  }

  lemma QuotientPositive(a: nat, b: nat)
    requires b > 0
    ensures a / b > 0 <==> a >= b
  {
  }

  /** The arithmetic at the end of `update`, with its saturating operations. */
  function Measure(first: Sample, now: U64, bytes: U64, total: Option<U64>): (r: Option<Report>)
    requires first.time <= now && first.bytes <= bytes && (total.Some? ==> bytes < total.value)
    ensures IsReport(r, first, now, bytes, total)
  {
    var elapsed := SaturatingSub(now, first.time);
    if elapsed < 500 then None
    else
      var moved := SaturatingMul(SaturatingSub(bytes, first.bytes), 1000);
      QuotientPositive(moved, elapsed);
      var rate := moved / elapsed;
      if rate == 0 then None
      else Some(Report(rate, if total.Some? then Some(DivCeil(SaturatingSub(total.value, bytes), rate)) else None))
  }

  /** Whether the window starts over before this update. */
  predicate Restarts(s: seq<Sample>, phase: string, now: U64, p: Progress, bytes: U64) {
    phase != p.labelKey || (s != [] && (bytes < s[|s| - 1].bytes || now < s[|s| - 1].time))
  }

  predicate Finished(p: Progress, bytes: U64) {
    p.labelKey == "progress_interrupted" || (p.total.Some? && bytes >= p.total.value)
  }

  lemma TailIncreasing(s: seq<Sample>, n: nat)
    requires Increasing(s) && n < |s|
    ensures Increasing(s[n..]) && s[n..][|s| - n - 1] == s[|s| - 1]
    ensures s[n].time <= s[|s| - 1].time && s[n].bytes <= s[|s| - 1].bytes
  {
  }

  /** The pruning loop of `update`. */
  method Slide(all: seq<Sample>, now: U64) returns (kept: seq<Sample>)
    requires Increasing(all) && all != [] && all[|all| - 1].time <= now
    ensures IsWindow(kept, all, now) && Increasing(kept) && 1 <= |kept| <= 5001
    ensures kept[0].time <= now && kept[0].bytes <= all[|all| - 1].bytes
  {
    kept := all;
    ghost var n := 0;
    while |kept| > 2 && SaturatingSub(now, kept[0].time) > 5000
      invariant n < |all| && kept == all[n..]
      invariant n > 0 ==> |kept| >= 2 && now - all[n - 1].time > 5000
    {
      TailIncreasing(all, n);
      kept := kept[1..];
      n := n + 1;
    }
    TailIncreasing(all, n);
    WindowSize(kept, now);
  }

  /** The samples before pruning. */
  function Sampled(s: seq<Sample>, now: U64, bytes: U64): seq<Sample> {
    if s == [] || now > s[|s| - 1].time then s + [Sample(now, bytes)] else s
  }

  /** The window slides on from `base`, and the report is measured from its oldest sample. */
  ghost predicate IsMeasured(base: seq<Sample>, now: U64, bytes: U64, total: Option<U64>, samples: seq<Sample>,
                             r: Option<Report>)
    requires total.Some? ==> bytes < total.value
  {
    && IsWindow(samples, Sampled(base, now, bytes), now)
    && samples != [] && samples[0].time <= now && samples[0].bytes <= bytes
    && IsReport(r, samples[0], now, bytes, total)
  }

  /** What one update makes of the window and the phase, and what it reports: nothing without bytes or at
      the end, else from the oldest sample of the window. */
  ghost predicate IsUpdated(samples: seq<Sample>, phase: string, now: U64, progress: Option<Progress>,
                            samples': seq<Sample>, phase': string, r: Option<Report>)
  {
    if progress.None? || progress.value.bytes.None? then r.None? && samples' == [] && phase' == phase
    else
      var p, bytes := progress.value, progress.value.bytes.value;
      var restarts := Restarts(samples, phase, now, p, bytes);
      && phase' == (if restarts then p.labelKey else phase)
      && if Finished(p, bytes) then r.None? && samples' == []
         else IsMeasured(if restarts then [] else samples, now, bytes, p.total, samples', r)
  }

  class Rate {
    var samples: seq<Sample>
    var phase: string

    ghost predicate Valid()
      reads this
    {
      Increasing(samples) && |samples| <= 5001
    }

    constructor ()
      ensures Valid() && samples == [] && phase == ""
    {
      samples, phase := [], "";
    }

    method Update(now: U64, progress: Option<Progress>) returns (r: Option<Report>)
      requires Valid()
      modifies this
      ensures Valid()
      ensures IsUpdated(old(samples), old(phase), now, progress, samples, phase, r)
    {
      if progress.None? || progress.value.bytes.None? {
        samples := [];
        return None;
      }
      var p := progress.value;
      var bytes := p.bytes.value;
      if Restarts(samples, phase, now, p, bytes) {
        samples, phase := [], p.labelKey;
      }
      if Finished(p, bytes) {
        samples := [];
        return None;
      }
      r := Advance(now, bytes, p.total);
    }

    /** The end of `update`: the new sample, the pruning and the report. */
    method Advance(now: U64, bytes: U64, total: Option<U64>) returns (r: Option<Report>)
      requires Valid() && (total.Some? ==> bytes < total.value)
      requires samples != [] ==> samples[|samples| - 1].time <= now && samples[|samples| - 1].bytes <= bytes
      modifies this`samples
      ensures Valid() && IsMeasured(old(samples), now, bytes, total, samples, r)
    {
      samples := Sampled(samples, now, bytes);
      samples := Slide(samples, now);
      return Measure(samples[0], now, bytes, total);
    }
  }

  // ---------------------------------------------------------------- runs of updates

  type Updates = seq<(U64, Option<Progress>)>

  /** The update at k reports bytes of a transfer that is neither interrupted nor finished. */
  ghost predicate ActiveAt(updates: Updates, k: int) {
    && 0 <= k < |updates| && updates[k].1.Some? && updates[k].1.value.bytes.Some?
    && var p := updates[k].1.value;
      p.labelKey != "progress_interrupted" && (p.total.Some? ==> p.bytes.value < p.total.value)
  }

  function SampleAt(updates: Updates, k: nat): Sample
    requires k < |updates| && updates[k].1.Some? && updates[k].1.value.bytes.Some?
  {
    Sample(updates[k].0, updates[k].1.value.bytes.value)
  }

  /** From j to n every update is active and of one phase, and none falls behind the one at j. */
  ghost predicate Steady(updates: Updates, j: int, n: int) {
    && 0 <= j <= n < |updates|
    && forall k | j <= k <= n ::
      && ActiveAt(updates, k) && ActiveAt(updates, j) && ActiveAt(updates, n)
      && updates[k].1.value.labelKey == updates[n].1.value.labelKey
      && SampleAt(updates, k).time >= SampleAt(updates, j).time
      && SampleAt(updates, k).bytes >= SampleAt(updates, j).bytes
  }

  ghost predicate TakenAt(updates: Updates, j: int, n: int, s: Sample) {
    Steady(updates, j, n) && s == SampleAt(updates, j)
  }

  ghost predicate WasTaken(updates: Updates, n: int, s: Sample) {
    exists j :: TakenAt(updates, j, n, s)
  }

  /** Every sample of the window was taken by an update since which all were steady. */
  ghost predicate WindowOk(updates: Updates, n: nat, samples: seq<Sample>, phase: string) {
    samples != [] ==>
      && n > 0 && ActiveAt(updates, n - 1) && updates[n - 1].1.value.labelKey == phase
      && forall i | 0 <= i < |samples| :: WasTaken(updates, n - 1, samples[i])
  }

  lemma SteadyOn(updates: Updates, j: int, n: nat, s: Sample)
    requires 0 < n < |updates| && TakenAt(updates, j, n - 1, s) && ActiveAt(updates, n)
    requires updates[n].1.value.labelKey == updates[n - 1].1.value.labelKey
    requires SampleAt(updates, n).time >= s.time && SampleAt(updates, n).bytes >= s.bytes
    ensures TakenAt(updates, j, n, s)
  {
  }

  /** A sample of the window before an update that does not start over. */
  lemma OldSampleStays(updates: Updates, n: nat, samples: seq<Sample>, phase: string, i: nat)
    requires ActiveAt(updates, n) && WindowOk(updates, n, samples, phase) && Increasing(samples) && i < |samples|
    requires !Restarts(samples, phase, updates[n].0, updates[n].1.value, updates[n].1.value.bytes.value)
    ensures WasTaken(updates, n, samples[i])
  {
    assert WasTaken(updates, n - 1, samples[i]);
    var j :| TakenAt(updates, j, n - 1, samples[i]);
    assert i < |samples| - 1 ==> samples[i].time < samples[|samples| - 1].time;
    SteadyOn(updates, j, n, samples[i]);
  }

  lemma WindowKept(updates: Updates, n: nat, samples: seq<Sample>, phase: string, base: seq<Sample>, kept: seq<Sample>)
    requires ActiveAt(updates, n) && WindowOk(updates, n, samples, phase) && Increasing(samples)
    requires var u := updates[n];
      base == if Restarts(samples, phase, u.0, u.1.value, u.1.value.bytes.value) then [] else samples
    requires forall i | 0 <= i < |kept| :: kept[i] == SampleAt(updates, n) || kept[i] in base
    ensures WindowOk(updates, n + 1, kept, updates[n].1.value.labelKey)
  {
    forall i | 0 <= i < |kept| ensures WasTaken(updates, n, kept[i]) {
      if kept[i] == SampleAt(updates, n) {
        assert TakenAt(updates, n, n, kept[i]);
      } else {
        var k :| 0 <= k < |base| && base[k] == kept[i];
        OldSampleStays(updates, n, samples, phase, k);
      }
    }
  }

  /** The report at i is measured from the update at j, half a second or more before, since which every
      update was steady. */
  ghost predicate MeasuredFrom(updates: Updates, j: int, i: int, r: Report) {
    && Steady(updates, j, i) && updates[i].0 - updates[j].0 >= 500
    && IsReport(Some(r), SampleAt(updates, j), updates[i].0, updates[i].1.value.bytes.value, updates[i].1.value.total)
  }

  ghost predicate IsHonest(updates: Updates, i: int, r: Option<Report>) {
    r.Some? ==> exists j :: MeasuredFrom(updates, j, i, r.value)
  }

  lemma FirstIsMeasured(updates: Updates, n: nat, samples: seq<Sample>, phase: string, r: Option<Report>)
    requires ActiveAt(updates, n) && samples != [] && WindowOk(updates, n + 1, samples, phase)
    requires samples[0].time <= updates[n].0 && samples[0].bytes <= updates[n].1.value.bytes.value
    requires IsReport(r, samples[0], updates[n].0, updates[n].1.value.bytes.value, updates[n].1.value.total)
    ensures IsHonest(updates, n, r)
  {
    assert WasTaken(updates, n, samples[0]);
    var j :| TakenAt(updates, j, n, samples[0]);
    assert r.Some? ==> MeasuredFrom(updates, j, n, r.value);
  }

  lemma WindowMembers(kept: seq<Sample>, all: seq<Sample>, now: U64, base: seq<Sample>, s: Sample)
    requires IsWindow(kept, all, now) && (all == base || all == base + [s])
    ensures forall i | 0 <= i < |kept| :: kept[i] == s || kept[i] in base
  {
    forall i | 0 <= i < |kept| ensures kept[i] == s || kept[i] in base {
      assert kept[i] == all[|all| - |kept| + i];
    }
  }

  lemma UpdateKeeps(updates: Updates, n: nat, samples: seq<Sample>, phase: string, samples': seq<Sample>,
                    phase': string, r: Option<Report>)
    requires n < |updates| && WindowOk(updates, n, samples, phase) && Increasing(samples)
    requires IsUpdated(samples, phase, updates[n].0, updates[n].1, samples', phase', r)
    ensures WindowOk(updates, n + 1, samples', phase') && IsHonest(updates, n, r)
  {
    var now, progress := updates[n].0, updates[n].1;
    if progress.Some? && progress.value.bytes.Some? && !Finished(progress.value, progress.value.bytes.value) {
      var bytes := progress.value.bytes.value;
      var base := if Restarts(samples, phase, now, progress.value, bytes) then [] else samples;
      assert ActiveAt(updates, n);
      WindowMembers(samples', Sampled(base, now, bytes), now, base, SampleAt(updates, n));
      WindowKept(updates, n, samples, phase, base, samples');
      FirstIsMeasured(updates, n, samples', phase', r);
    }
  }

  /** Over any run of updates every report has a positive rate and the exact remaining time at that rate,
      measured over a stretch of one phase without a break or a step back. */
  method Replay(updates: Updates) returns (reports: seq<Option<Report>>)
    ensures |reports| == |updates|
    ensures forall i | 0 <= i < |updates| :: IsHonest(updates, i, reports[i])
  {
    var rate := new Rate();
    reports := [];
    for n := 0 to |updates|
      invariant fresh(rate) && rate.Valid() && |reports| == n
      invariant WindowOk(updates, n, rate.samples, rate.phase)
      invariant forall i | 0 <= i < n :: IsHonest(updates, i, reports[i])
    {
      ghost var samples, phase := rate.samples, rate.phase;
      var r := rate.Update(updates[n].0, updates[n].1);
      UpdateKeeps(updates, n, samples, phase, rate.samples, rate.phase, r);
      reports := reports + [r];
    }
  }
}
