/** The size-rotated core log (crates/vnidrop/src/logging.rs), with file operations that succeed and
    writes that are complete. */
module LogRotation {
  import opened Common

  type Bytes = seq<int>

  /** Slot i is vnidrop.{i}.log, None while that file does not exist; slot 0 is not used. */
  type Slots = seq<Option<Bytes>>

  /** Exactly the files 1..count exist. */
  ghost predicate Numbered(rotated: Slots, count: nat) {
    count < |rotated| && forall i | 1 <= i < |rotated| :: rotated[i].Some? <==> i <= count
  }

  /** The files oldest first: rotated files of the largest index down to 1, then the active file. */
  ghost function Kept(rotated: Slots, count: nat, active: Option<Bytes>): seq<Bytes>
    requires Numbered(rotated, count)
  {
    seq(count, i requires 0 <= i < count => rotated[count - i].value) + (if active.Some? then [active.value] else [])
  }

  ghost function Concat(files: seq<Bytes>): Bytes {
    if files == [] then [] else Concat(files[..|files| - 1]) + files[|files| - 1]
  }

  /** What holds of the kept files, oldest first. */
  ghost predicate WellKept(files: seq<Bytes>, writes: seq<Bytes>, maxBytes: nat) {
    && IsSuffix(Concat(files), Concat(writes))
    && (forall i | 0 <= i < |files| :: |files[i]| <= maxBytes || files[i] in writes)
    && AreFull(files, maxBytes)
  }

  /** No older file is empty, and two neighbours together exceed the limit. */
  ghost predicate AreFull(files: seq<Bytes>, maxBytes: nat) {
    forall i, j | 0 <= i < j < |files| && j == i + 1 :: FullPair(files[i], files[j], maxBytes)
  }

  predicate FullPair(older: Bytes, newer: Bytes, maxBytes: nat) {
    older != [] && |older| + |newer| > maxBytes
  }

  lemma {:induction false} ConcatDropFirst(files: seq<Bytes>)
    requires files != []
    ensures Concat(files) == files[0] + Concat(files[1..])
  {
    if |files| > 1 {
      ConcatDropFirst(files[..|files| - 1]);
      assert files[..|files| - 1][1..] == files[1..][..|files| - 2];
    }
  }

  lemma {:induction false} ConcatDropMany(files: seq<Bytes>, n: nat)
    requires n <= |files|
    ensures IsSuffix(Concat(files[n..]), Concat(files))
  {
    if n == 0 {
      assert files[0..] == files;
    } else {
      ConcatDropFirst(files);
      ConcatDropMany(files[1..], n - 1);
      assert files[1..][n - 1..] == files[n..];
    }
  }

  lemma DroppingKeeps(files: seq<Bytes>, n: nat, writes: seq<Bytes>, maxBytes: nat)
    requires n <= |files| && WellKept(files, writes, maxBytes)
    ensures WellKept(files[n..], writes, maxBytes)
  {
    ConcatDropMany(files, n);
    SuffixTransitive(Concat(files[n..]), Concat(files), Concat(writes));
    var rest := files[n..];
    forall i | 0 <= i < |rest| ensures |rest[i]| <= maxBytes || rest[i] in writes {
      assert rest[i] == files[n + i];
    }
    forall i, j | 0 <= i < j < |rest| && j == i + 1 ensures FullPair(rest[i], rest[j], maxBytes) {
      assert FullPair(files[n + i], files[n + j], maxBytes);
    }
  }

  lemma SuffixTransitive(a: Bytes, b: Bytes, c: Bytes)
    requires IsSuffix(a, b) && IsSuffix(b, c)
    ensures IsSuffix(a, c)
  {
    assert c[|c| - |b|..][|b| - |a|..] == c[|c| - |a|..];
  }

  lemma SuffixOfConcat(x: Bytes, y: Bytes)
    ensures IsSuffix(y, x + y)
  {
  }

  lemma SuffixAppend(s: Bytes, t: Bytes, buf: Bytes)
    requires IsSuffix(s, t)
    ensures IsSuffix(s + buf, t + buf)
  {
    assert (t + buf)[|t| - |s|..] == t[|t| - |s|..] + buf;
  }

  /** A write into a new active file. */
  lemma NewFileKeeps(files: seq<Bytes>, buf: Bytes, writes: seq<Bytes>, maxBytes: nat)
    requires WellKept(files, writes, maxBytes)
    requires files == [] || (files[|files| - 1] != [] && |files[|files| - 1]| + |buf| > maxBytes)
    ensures WellKept(files + [buf], writes + [buf], maxBytes)
  {
    assert (files + [buf])[..|files|] == files && (writes + [buf])[..|writes|] == writes;
    SuffixAppend(Concat(files), Concat(writes), buf);
    forall i, j | 0 <= i < j < |files + [buf]| && j == i + 1
      ensures FullPair((files + [buf])[i], (files + [buf])[j], maxBytes)
    {
      assert j < |files| ==> FullPair(files[i], files[j], maxBytes);
    }
  }

  /** A write into the existing active file. */
  lemma GrowingKeeps(older: seq<Bytes>, last: Bytes, buf: Bytes, writes: seq<Bytes>, maxBytes: nat)
    requires WellKept(older + [last], writes, maxBytes)
    requires last == [] || |last| + |buf| <= maxBytes
    ensures WellKept(older + [last + buf], writes + [buf], maxBytes)
  {
    var files, files' := older + [last], older + [last + buf];
    assert files[..|older|] == older && files'[..|older|] == older && (writes + [buf])[..|writes|] == writes;
    assert Concat(files') == Concat(files) + buf;
    SuffixAppend(Concat(files), Concat(writes), buf);
    assert last == [] ==> last + buf == buf;
    forall i | 0 <= i < |files'| ensures |files'[i]| <= maxBytes || files'[i] in writes + [buf] {
      assert i < |older| ==> files'[i] == files[i];
    }
    forall i, j | 0 <= i < j < |files'| && j == i + 1 ensures FullPair(files'[i], files'[j], maxBytes) {
      assert FullPair(files[i], files[j], maxBytes);
    }
  }

  /** Adjacent files together exceed the limit, so n kept files hold at least n / 2 times that much. */
  lemma {:induction false} KeptAtLeast(files: seq<Bytes>, maxBytes: nat)
    requires AreFull(files, maxBytes)
    ensures |Concat(files)| >= |files| / 2 * (maxBytes + 1)
  {
    if |files| >= 2 {
      var older := files[..|files| - 2];
      assert files[..|files| - 1][..|files| - 2] == older;
      forall i, j | 0 <= i < j < |older| && j == i + 1 ensures FullPair(older[i], older[j], maxBytes) {
        assert FullPair(files[i], files[j], maxBytes);
      }
      KeptAtLeast(older, maxBytes);
      assert FullPair(files[|files| - 2], files[|files| - 1], maxBytes);
      assert |files| / 2 == |older| / 2 + 1;
    }
  }

  /** What one write did to the files: it grew the last one, or started a new one after the oldest
      `n` went away. */
  lemma WriteKeeps(before: seq<Bytes>, after: seq<Bytes>, n: nat, buf: Bytes, writes: seq<Bytes>, maxBytes: nat)
    requires WellKept(before, writes, maxBytes)
    requires
      || (before != [] && var last := before[|before| - 1];
          (last == [] || |last| + |buf| <= maxBytes) && after == before[..|before| - 1] + [last + buf])
      || (n <= |before| && after == before[n..] + [buf]
          && (before == [] || (before[|before| - 1] != [] && |before[|before| - 1]| + |buf| > maxBytes)))
    ensures WellKept(after, writes + [buf], maxBytes)
  {
    if n <= |before| && after == before[n..] + [buf]
       && (before == [] || (before[|before| - 1] != [] && |before[|before| - 1]| + |buf| > maxBytes)) {
      DroppingKeeps(before, n, writes, maxBytes);
      NewFileKeeps(before[n..], buf, writes, maxBytes);
    } else {
      var last := before[|before| - 1];
      assert before == before[..|before| - 1] + [last];
      GrowingKeeps(before[..|before| - 1], last, buf, writes, maxBytes);
    }
  }

  /** Half way through the renames: files above `index` have moved up, those below have not. */
  ghost predicate Moving(before: Slots, now: Slots, index: nat) {
    && |now| == |before| && index < |now|
    && now[index].None?
    && (forall i | 1 <= i < index :: now[i] == before[i])
    && (forall i | index < i < |now| :: now[i] == before[i - 1])
  }

  /** Moving the active file to index 1 keeps the sequence of files, less the oldest when full. */
  lemma ShiftedFiles(before: Slots, now: Slots, count: nat, active: Bytes)
    requires |before| > 1 && count < |before| && Numbered(before, count) && Moving(before, now, 1)
    ensures var n := if count == |before| - 1 then 1 else 0;
      Numbered(now[1 := Some(active)], count + 1 - n)
      && Kept(now[1 := Some(active)], count + 1 - n, None) == Kept(before, count, Some(active))[n..]
  {
    var n, after := if count == |before| - 1 then 1 else 0, now[1 := Some(active)];
    assert forall i | 2 <= i <= count + 1 - n :: after[i] == before[i - 1];
  }

  class SizeRotatingWriter {
    const maxBytes: nat
    const maxFiles: nat
    var rotated: Slots
    var active: Option<Bytes>        // vnidrop.log
    ghost var count: nat
    ghost var writes: seq<Bytes>

    ghost predicate Valid()
      reads this
    {
      && |rotated| == maxFiles + 1 && Numbered(rotated, count) && (active.None? ==> count == 0)
      && WellKept(Kept(rotated, count, active), writes, maxBytes)
    }

    constructor (maxBytes: nat, maxFiles: nat)
      ensures Valid() && active.None? && writes == [] && this.maxBytes == maxBytes && this.maxFiles == maxFiles
    {
      this.maxBytes, this.maxFiles := maxBytes, maxFiles;
      rotated, active, count, writes := seq(maxFiles + 1, _ => None), None, 0, [];
    }

    predicate MustRotate(incoming: nat)
      reads this
    {
      active.Some? && active.value != [] && |active.value| + incoming > maxBytes
    }

    /** The renames of one rotation; each target is free when it is reached. */
    method ShiftRotated()
      requires |rotated| == maxFiles + 1 > 1 && Numbered(rotated, count)
      modifies this`rotated
      ensures Moving(old(rotated), rotated, 1)
    {
      rotated := rotated[maxFiles := None];
      for index := maxFiles downto 1
        invariant Moving(old(rotated), rotated, index)
      {
        if rotated[index].Some? {
          assert rotated[index + 1].None?;
          rotated := rotated[index + 1 := rotated[index]][index := None];
        }
      }
    }

    /** Rotates exactly when the active file is not empty and the write would exceed the limit. */
    method RotateIfNeeded(incoming: nat)
      requires |rotated| == maxFiles + 1 && Numbered(rotated, count) && (active.None? ==> count == 0)
      modifies this`rotated, this`active, this`count
      ensures |rotated| == maxFiles + 1 && Numbered(rotated, count)
      ensures old(MustRotate(incoming)) <==>
        old(active).Some? && old(active).value != [] && |old(active).value| + incoming > maxBytes
      ensures !old(MustRotate(incoming)) ==> rotated == old(rotated) && active == old(active) && count == old(count)
      ensures old(MustRotate(incoming)) ==> active.None? && count == Min(old(count) + 1, maxFiles)
      ensures old(MustRotate(incoming)) ==>
        Kept(rotated, count, None) == old(Kept(rotated, count, active))[old(count) + 1 - count..]
    {
      if !MustRotate(incoming) {
        return;
      }
      if maxFiles == 0 {
        active := None;
        return;
      }
      ShiftRotated();
      ShiftedFiles(old(rotated), rotated, count, active.value);
      assert rotated[1].None?;
      rotated := rotated[1 := active];
      active := None;
      count := if count == maxFiles then maxFiles else count + 1;
    }

    /** `write` of a whole buffer. */
    method Write(buf: Bytes)
      requires Valid()
      modifies this
      ensures Valid() && active.Some? && writes == old(writes) + [buf]
      ensures IsSuffix(buf, active.value)
    {
      ghost var before, n := Kept(rotated, count, active), 0;
      RotateIfNeeded(|buf|);
      if active.Some? {
        SuffixOfConcat(active.value, buf);
        active := Some(active.value + buf);
        assert Kept(rotated, count, active) == before[..|before| - 1] + [before[|before| - 1] + buf];
      } else {
        n := |before| - count;
        active := Some(buf);
        assert Kept(rotated, count, active) == before[n..] + [buf];
      }
      WriteKeeps(before, Kept(rotated, count, active), n, buf, writes, maxBytes);
      writes := writes + [buf];
    }

    method WriteAll(bufs: seq<Bytes>)
      requires Valid() && writes == [] && active.None?
      modifies this
      ensures Valid() && writes == bufs && (active.Some? <==> bufs != [])
    {
      for i := 0 to |bufs|
        invariant Valid() && writes == bufs[..i] && (active.Some? <==> i > 0)
      {
        Write(bufs[i]);
        assert bufs[..i + 1] == bufs[..i] + [bufs[i]];
      }
      assert bufs[..|bufs|] == bufs;
    }
  }

  /** Any run of writes from an empty directory. */
  method Log(bufs: seq<Bytes>, maxBytes: nat, maxFiles: nat)
    returns (rotated: Slots, active: Option<Bytes>, ghost count: nat)
    ensures |rotated| == maxFiles + 1 && Numbered(rotated, count)
    ensures WellKept(Kept(rotated, count, active), bufs, maxBytes)
    ensures active.Some? <==> bufs != []
  {
    var writer := new SizeRotatingWriter(maxBytes, maxFiles);
    writer.WriteAll(bufs);
    rotated, active, count := writer.rotated, writer.active, writer.count;
  }
}
