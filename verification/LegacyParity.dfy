/** The Windows reader of the same preference file (windows/VniDrop.Core/AppPreferences.cs) against
    the Linux one: position based, unchecked field numbers, 32-bit sizes, lenient keys. */
module LegacyParity {
  import opened Common
  import opened Utf8
  import opened Varint
  import opened LegacyPreferences

  const INT_MAX := 0x7FFF_FFFF

  /** Load refuses larger files. */
  const MAX_FILE_BYTES := 1024 * 1024

  ghost predicate Position(data: Bytes, position: nat) {
    position <= |data| <= MAX_FILE_BYTES
  }

  function CsVarint(data: Bytes, position: nat): (r: Option<(U64, nat)>)
    requires position <= |data|
    ensures r.Some? ==> position < r.value.1 <= |data|
  {
    var (n, rest) :- Read(data[position..]);
    Some((n, |data| - |rest|))
  }

  function CsBytes(data: Bytes, position: nat): (r: Option<(Bytes, nat)>)
    requires position <= |data|
    ensures r.Some? ==> position < r.value.1 <= |data| && |r.value.0| < |data|
  {
    var (size, start) :- CsVarint(data, position);
    if size > INT_MAX || size > |data| - start then None
    else Some((data[start..start + size], start + size))
  }

  /** Adding to the position is checked 32-bit arithmetic; the bound is tested afterwards. */
  function CsSkip(data: Bytes, position: nat, tag: U64): (r: Option<nat>)
    requires position <= |data|
    ensures r.Some? ==> position <= r.value <= |data|
  {
    var next :-
      match tag % 8
      case 0 => (var (_, p) :- CsVarint(data, position); Some(p))
      case 1 => if position + 8 > INT_MAX then None else Some(position + 8)
      case 2 => (var (_, p) :- CsBytes(data, position); Some(p))
      case 5 => if position + 4 > INT_MAX then None else Some(position + 4)
      case _ => None;
    if next > |data| then None else Some(next)
  }

  /** The rounds of the Windows loop, at a position. */
  function CsRounds(data: Bytes, position: nat, k: nat, value: nat): Option<(nat, nat)>
    requires position <= |data| && k <= 9
    decreases |data| - position
  {
    if position == |data| || (k == 9 && data[position] > 1) then None
    else if data[position] < 128 then Some((value + Shifted(data[position], k), position + 1))
    else CsRounds(data, position + 1, k + 1, value + Shifted(data[position], k))
  }

  lemma {:induction false} CsRoundsAreRounds(data: Bytes, position: nat, k: nat, value: nat)
    requires position <= |data| && k <= 9
    ensures var r := Rounds(data[position..], k, value);
      CsRounds(data, position, k, value) == if r.None? then None else Some((r.value.0, |data| - |r.value.1|))
    decreases |data| - position
  {
    if position < |data| && k < 9 {
      assert data[position..][1..] == data[position + 1..];
      CsRoundsAreRounds(data, position + 1, k + 1, value + Shifted(data[position], k));
    }
  }

  lemma CsRoundsRead(data: Bytes, position: nat)
    requires position <= |data|
    ensures CsRounds(data, position, 0, 0).Some? <==> CsVarint(data, position).Some?
    ensures CsVarint(data, position).Some? ==> CsRounds(data, position, 0, 0).value == CsVarint(data, position).value
  {
    CsRoundsAreRounds(data, position, 0, 0);
    RoundsFromStart(data[position..]);
  }

  // ---------------------------------------------------------------- the reader class

  /** The loop of `Varint`, from a position of the reader's data. */
  method ReadAt(data: Bytes, start: nat) returns (r: Option<(U64, nat)>)
    requires start <= |data|
    ensures r == CsVarint(data, start)
  {
    CsRoundsRead(data, start);
    var position: nat, value: U64, k := start, 0, 0;
    while k < 10
      invariant k < 10 && position <= |data| && value < Scale(1, k)
      invariant CsRounds(data, position, k, value) == CsRounds(data, start, 0, 0)
      decreases 10 - k
    {
      if position == |data| || (k == 9 && data[position] > 1) {
        return None;
      }
      var next := data[position];
      position := position + 1;
      value := AddRound(value, next, k);
      if next < 128 {
        return Some((value, position));
      }
      k := k + 1;
    }
    assert false;  // the loop of the source cannot run out of rounds
  }

  class ProtoReader {
    const data: Bytes
    var position: nat

    ghost predicate Valid()
      reads this
    {
      position <= |data|
    }

    constructor (data: Bytes)
      ensures Valid() && this.data == data && position == 0
    {
      this.data, position := data, 0;
    }

    method Varint() returns (r: Option<U64>)
      requires Valid()
      modifies this
      ensures Valid()
      ensures r.Some? <==> CsVarint(data, old(position)).Some?
      ensures r.Some? ==> CsVarint(data, old(position)) == Some((r.value, position))
    {
      var n := ReadAt(data, position);
      if n.None? {
        return None;
      }
      position := n.value.1;
      return Some(n.value.0);
    }

    method TakeSized() returns (r: Option<Bytes>)
      requires Valid()
      modifies this
      ensures Valid()
      ensures r.Some? <==> CsBytes(data, old(position)).Some?
      ensures r.Some? ==> CsBytes(data, old(position)) == Some((r.value, position))
    {
      var size :- Varint();
      if size > INT_MAX || size > |data| - position {
        return None;
      }
      r := Some(data[position..position + size]);
      position := position + size;
    }
  }

  // ---------------------------------------------------------------- reader parity

  /** The two readers agree on `linux` against `windows` when they stop at the same place. */
  lemma VarintParity(data: Bytes, position: nat)
    requires position <= |data|
    ensures CsVarint(data, position).Some? <==> Read(data[position..]).Some?
    ensures CsVarint(data, position).Some? ==> var (n, next) := CsVarint(data, position).value;
      Read(data[position..]) == Some((n, data[next..]))
  {
    if Read(data[position..]).Some? {
      var rest := Read(data[position..]).value.1;
      assert rest == data[|data| - |rest|..];
    }
  }

  lemma BytesParity(data: Bytes, position: nat)
    requires Position(data, position)
    ensures CsBytes(data, position).Some? <==> TakeBytes(data[position..]).Some?
    ensures CsBytes(data, position).Some? ==> var (b, next) := CsBytes(data, position).value;
      TakeBytes(data[position..]) == Some((b, data[next..]))
  {
    VarintParity(data, position);
    if CsVarint(data, position).Some? {
      var (size, start) := CsVarint(data, position).value;
      if size <= |data| - start {
        assert data[start..][..size] == data[start..start + size];
        assert data[start..][size..] == data[start + size..];
      }
    }
  }

  lemma TakeParity(data: Bytes, position: nat, n: nat)
    requires position <= |data|
    ensures Take(data[position..], n).Some? <==> position + n <= |data|
    ensures position + n <= |data| ==> Take(data[position..], n).value.1 == data[position + n..]
  {
    if position + n <= |data| {
      assert data[position..][n..] == data[position + n..];
    }
  }

  /** Skipping a field: Linux accepts exactly what Windows accepts with a field number, and both stop
      at the same place. */
  lemma SkipParity(data: Bytes, position: nat, tag: U64)
    requires Position(data, position)
    ensures Skip(data[position..], tag).Some? <==> CsSkip(data, position, tag).Some? && tag / 8 != 0
    ensures Skip(data[position..], tag).Some? ==>
      Skip(data[position..], tag).value == data[CsSkip(data, position, tag).value..]
  {
    VarintParity(data, position);
    BytesParity(data, position);
    TakeParity(data, position, 8);
    TakeParity(data, position, 4);
  }

  // ---------------------------------------------------------------- the Windows parse

  function CsItemField(data: Bytes, position: nat, value: Option<Value>): (r: Option<(nat, Option<Value>)>)
    requires position <= |data|
    ensures r.Some? ==> position < r.value.0 <= |data|
  {
    var (tag, p) :- CsVarint(data, position);
    if tag == 42 then
      var (b, next) :- CsBytes(data, p);
      var text :- StrictText(b);
      Some((next, Some(TextValue(text))))
    else if tag == 8 then
      var (n, next) :- CsVarint(data, p);
      Some((next, Some(BoolValue(n != 0))))
    else
      var next :- CsSkip(data, p, tag);
      Some((next, value))
  }

  function CsItem(data: Bytes, position: nat, value: Option<Value>): Option<Option<Value>>
    requires position <= |data|
    decreases |data| - position
  {
    if position == |data| then Some(value)
    else match CsItemField(data, position, value)
      case None => None
      case Some((next, value')) => CsItem(data, next, value')
  }

  /** Keys are decoded leniently; `lenient` is UTF-8 with replacement characters. */
  function CsEntryField(data: Bytes, position: nat, entry: Entry, lenient: Bytes -> Text): (r: Option<(nat, Entry)>)
    requires position <= |data|
    ensures r.Some? ==> position < r.value.0 <= |data|
  {
    var (tag, p) :- CsVarint(data, position);
    if tag == 10 then
      var (b, next) :- CsBytes(data, p);
      Some((next, entry.(key := Some(lenient(b)))))
    else if tag == 18 then
      var (b, next) :- CsBytes(data, p);
      var value :- CsItem(b, 0, entry.value);
      Some((next, entry.(value := value)))
    else
      var next :- CsSkip(data, p, tag);
      Some((next, entry))
  }

  function CsEntry(data: Bytes, position: nat, entry: Entry, lenient: Bytes -> Text): Option<Entry>
    requires position <= |data|
    decreases |data| - position
  {
    if position == |data| then Some(entry)
    else match CsEntryField(data, position, entry, lenient)
      case None => None
      case Some((next, entry')) => CsEntry(data, next, entry', lenient)
  }

  /** An entry without a value is dropped, not refused. */
  function CsMapField(data: Bytes, position: nat, values: Values, lenient: Bytes -> Text): (r: Option<(nat, Values)>)
    requires position <= |data|
    ensures r.Some? ==> position < r.value.0 <= |data|
  {
    var (tag, p) :- CsVarint(data, position);
    if tag != 10 then
      var next :- CsSkip(data, p, tag);
      Some((next, values))
    else
      var (b, next) :- CsBytes(data, p);
      var entry :- CsEntry(b, 0, NO_ENTRY, lenient);
      if entry.key.Some? && entry.value.Some? then Some((next, values[entry.key.value := entry.value.value]))
      else Some((next, values))
  }

  function CsMap(data: Bytes, position: nat, values: Values, lenient: Bytes -> Text): Option<Values>
    requires position <= |data|
    decreases |data| - position
  {
    if position == |data| then Some(values)
    else match CsMapField(data, position, values, lenient)
      case None => None
      case Some((next, values')) => CsMap(data, next, values', lenient)
  }

  // ---------------------------------------------------------------- parse parity

  lemma ItemFieldParity(data: Bytes, position: nat, value: Option<Value>)
    requires Position(data, position) && ItemField(data[position..], value).Some?
    ensures CsItemField(data, position, value).Some?
    ensures var (next, value') := CsItemField(data, position, value).value;
      ItemField(data[position..], value) == Some((data[next..], value'))
  {
    VarintParity(data, position);
    var (tag, p) := CsVarint(data, position).value;
    if tag == 42 {
      BytesParity(data, p);
    } else if tag == 8 {
      VarintParity(data, p);
    } else {
      SkipParity(data, p, tag);
    }
  }

  lemma {:induction false} ItemParity(data: Bytes, position: nat, value: Option<Value>)
    requires Position(data, position) && ParseItem(data[position..], value).Some?
    ensures CsItem(data, position, value) == ParseItem(data[position..], value)
    decreases |data| - position
  {
    if position < |data| {
      ItemFieldParity(data, position, value);
      var (next, value') := CsItemField(data, position, value).value;
      ItemParity(data, next, value');
    }
  }

  lemma EntryFieldParity(data: Bytes, position: nat, entry: Entry, lenient: Bytes -> Text)
    requires forall t: Text :: lenient(Encode(t)) == t
    requires Position(data, position) && EntryField(data[position..], entry).Some?
    ensures CsEntryField(data, position, entry, lenient).Some?
    ensures var (next, entry') := CsEntryField(data, position, entry, lenient).value;
      EntryField(data[position..], entry) == Some((data[next..], entry'))
  {
    VarintParity(data, position);
    var (tag, p) := CsVarint(data, position).value;
    if tag == 10 {
      BytesParity(data, p);
      EncodeDecoded(CsBytes(data, p).value.0);
    } else if tag == 18 {
      BytesParity(data, p);
      var b := CsBytes(data, p).value.0;
      assert b[0..] == b;
      ItemParity(b, 0, entry.value);
    } else {
      SkipParity(data, p, tag);
    }
  }

  lemma {:induction false} EntryParity(data: Bytes, position: nat, entry: Entry, lenient: Bytes -> Text)
    requires forall t: Text :: lenient(Encode(t)) == t
    requires Position(data, position) && ParseEntry(data[position..], entry).Some?
    ensures CsEntry(data, position, entry, lenient) == ParseEntry(data[position..], entry)
    decreases |data| - position
  {
    if position < |data| {
      EntryFieldParity(data, position, entry, lenient);
      var (next, entry') := CsEntryField(data, position, entry, lenient).value;
      EntryParity(data, next, entry', lenient);
    }
  }

  lemma MapFieldParity(data: Bytes, position: nat, values: Values, lenient: Bytes -> Text)
    requires forall t: Text :: lenient(Encode(t)) == t
    requires Position(data, position) && MapField(data[position..], values).Some?
    ensures CsMapField(data, position, values, lenient).Some?
    ensures var (next, values') := CsMapField(data, position, values, lenient).value;
      MapField(data[position..], values) == Some((data[next..], values'))
  {
    VarintParity(data, position);
    var (tag, p) := CsVarint(data, position).value;
    if tag == 10 {
      BytesParity(data, p);
      var b := CsBytes(data, p).value.0;
      assert b[0..] == b;
      EntryParity(b, 0, NO_ENTRY, lenient);
    } else {
      SkipParity(data, p, tag);
    }
  }

  /** Whatever map Linux reads from a profile file, Windows reads too. */
  lemma {:induction false} MapParity(data: Bytes, position: nat, values: Values, lenient: Bytes -> Text)
    requires forall t: Text :: lenient(Encode(t)) == t
    requires Position(data, position) && ParseMap(data[position..], values).Some?
    ensures CsMap(data, position, values, lenient) == ParseMap(data[position..], values)
    decreases |data| - position
  {
    if position < |data| {
      MapFieldParity(data, position, values, lenient);
      var (next, values') := CsMapField(data, position, values, lenient).value;
      MapParity(data, next, values', lenient);
    }
  }

  // ---------------------------------------------------------------- what Linux refuses

  /** The field at this position has a number. */
  predicate Numbered(data: Bytes, position: nat)
    requires position <= |data|
  {
    CsVarint(data, position).Some? && CsVarint(data, position).value.0 / 8 != 0
  }

  /** Every field of a value has a number. */
  predicate StrictItem(data: Bytes, position: nat, value: Option<Value>)
    requires position <= |data|
    decreases |data| - position
  {
    position == |data|
    || (Numbered(data, position)
        && match CsItemField(data, position, value)
           case None => false
           case Some((next, value')) => StrictItem(data, next, value'))
  }

  /** The field has a number, a key is well-formed UTF-8 and a value strict. */
  predicate StrictEntryField(data: Bytes, position: nat, entry: Entry)
    requires position <= |data|
  {
    Numbered(data, position)
    && var (tag, p) := CsVarint(data, position).value;
       tag == 10 || tag == 18 ==>
         match CsBytes(data, p)
         case None => false
         case Some((b, _)) => if tag == 10 then StrictText(b).Some? else StrictItem(b, 0, entry.value)
  }

  predicate StrictEntry(data: Bytes, position: nat, entry: Entry, lenient: Bytes -> Text)
    requires position <= |data|
    decreases |data| - position
  {
    if position == |data| then entry.key.Some? ==> entry.value.Some?
    else
      StrictEntryField(data, position, entry)
      && match CsEntryField(data, position, entry, lenient)
         case None => false
         case Some((next, entry')) => StrictEntry(data, next, entry', lenient)
  }

  /** The field has a number, and an entry is strict and has a value if it has a key. */
  predicate StrictMapField(data: Bytes, position: nat, lenient: Bytes -> Text)
    requires position <= |data|
  {
    Numbered(data, position)
    && var (tag, p) := CsVarint(data, position).value;
       tag == 10 ==>
         match CsBytes(data, p)
         case None => false
         case Some((b, _)) => StrictEntry(b, 0, NO_ENTRY, lenient)
  }

  predicate StrictMap(data: Bytes, position: nat, values: Values, lenient: Bytes -> Text)
    requires position <= |data|
    decreases |data| - position
  {
    position == |data|
    || (StrictMapField(data, position, lenient)
        && match CsMapField(data, position, values, lenient)
           case None => false
           case Some((next, values')) => StrictMap(data, next, values', lenient))
  }

  lemma ItemFieldIff(data: Bytes, position: nat, value: Option<Value>)
    requires Position(data, position)
    ensures ItemField(data[position..], value).Some? <==>
      CsItemField(data, position, value).Some? && Numbered(data, position)
  {
    VarintParity(data, position);
    if CsVarint(data, position).Some? {
      var (tag, p) := CsVarint(data, position).value;
      if tag == 42 {
        BytesParity(data, p);
      } else if tag == 8 {
        VarintParity(data, p);
      } else {
        SkipParity(data, p, tag);
      }
    }
  }

  lemma {:induction false} ItemIff(data: Bytes, position: nat, value: Option<Value>)
    requires Position(data, position)
    ensures ParseItem(data[position..], value).Some? <==>
      CsItem(data, position, value).Some? && StrictItem(data, position, value)
    decreases |data| - position
  {
    if position < |data| {
      ItemFieldIff(data, position, value);
      if ItemField(data[position..], value).Some? {
        ItemFieldParity(data, position, value);
        var (next, value') := CsItemField(data, position, value).value;
        ItemIff(data, next, value');
      }
    }
  }

  lemma EntryFieldIff(data: Bytes, position: nat, entry: Entry, lenient: Bytes -> Text)
    requires Position(data, position)
    ensures EntryField(data[position..], entry).Some? <==>
      CsEntryField(data, position, entry, lenient).Some? && StrictEntryField(data, position, entry)
  {
    VarintParity(data, position);
    if CsVarint(data, position).Some? {
      var (tag, p) := CsVarint(data, position).value;
      if tag == 10 {
        BytesParity(data, p);
      } else if tag == 18 {
        BytesParity(data, p);
        if CsBytes(data, p).Some? {
          var b := CsBytes(data, p).value.0;
          assert b[0..] == b;
          ItemIff(b, 0, entry.value);
        }
      } else {
        SkipParity(data, p, tag);
      }
    }
  }

  lemma {:induction false} EntryIff(data: Bytes, position: nat, entry: Entry, lenient: Bytes -> Text)
    requires forall t: Text :: lenient(Encode(t)) == t
    requires Position(data, position)
    ensures var r := ParseEntry(data[position..], entry);
      r.Some? && (r.value.key.Some? ==> r.value.value.Some?) <==>
        CsEntry(data, position, entry, lenient).Some? && StrictEntry(data, position, entry, lenient)
    decreases |data| - position
  {
    if position < |data| {
      EntryFieldIff(data, position, entry, lenient);
      if EntryField(data[position..], entry).Some? {
        EntryFieldParity(data, position, entry, lenient);
        var (next, entry') := CsEntryField(data, position, entry, lenient).value;
        EntryIff(data, next, entry', lenient);
      }
    }
  }

  lemma MapFieldIff(data: Bytes, position: nat, values: Values, lenient: Bytes -> Text)
    requires forall t: Text :: lenient(Encode(t)) == t
    requires Position(data, position)
    ensures MapField(data[position..], values).Some? <==>
      CsMapField(data, position, values, lenient).Some? && StrictMapField(data, position, lenient)
  {
    VarintParity(data, position);
    if CsVarint(data, position).Some? {
      var (tag, p) := CsVarint(data, position).value;
      if tag == 10 {
        BytesParity(data, p);
        if CsBytes(data, p).Some? {
          var b := CsBytes(data, p).value.0;
          assert b[0..] == b;
          EntryIff(b, 0, NO_ENTRY, lenient);
        }
      } else {
        SkipParity(data, p, tag);
      }
    }
  }

  /** Linux reads exactly the files that Windows reads and in which every field has a number, every
      key is well-formed UTF-8 and every entry with a key has a value. */
  lemma {:induction false} MapIff(data: Bytes, position: nat, values: Values, lenient: Bytes -> Text)
    requires forall t: Text :: lenient(Encode(t)) == t
    requires Position(data, position)
    ensures ParseMap(data[position..], values).Some? <==>
      CsMap(data, position, values, lenient).Some? && StrictMap(data, position, values, lenient)
    decreases |data| - position
  {
    if position < |data| {
      MapFieldIff(data, position, values, lenient);
      if MapField(data[position..], values).Some? {
        MapFieldParity(data, position, values, lenient);
        var (next, values') := CsMapField(data, position, values, lenient).value;
        MapIff(data, next, values', lenient);
      }
    }
  }

  /** An entry with an empty key and no value. */
  const KEY_ONLY: Bytes := [10] + EncodeBytes([])

  lemma ReadsKeyOnly()
    ensures EntryField(KEY_ONLY, NO_ENTRY) == Some(([], Entry(Some([]), None)))
    ensures ParseEntry(KEY_ONLY, NO_ENTRY) == Some(Entry(Some([]), None))
  {
    ReadTag(10, EncodeBytes([]));
    TakeEncoded([], []);
    assert EncodeBytes([]) + [] == EncodeBytes([]);
    assert StrictText([]) == Some([]);
  }

  lemma DropsKeyOnly(lenient: Bytes -> Text)
    ensures CsEntry(KEY_ONLY, 0, NO_ENTRY, lenient).Some? && CsEntry(KEY_ONLY, 0, NO_ENTRY, lenient).value.value.None?
  {
    ReadTag(10, EncodeBytes([]));
    assert KEY_ONLY[0..] == KEY_ONLY && CsVarint(KEY_ONLY, 0) == Some((10, 1));
    TakeEncoded([], []);
    assert KEY_ONLY[1..] == EncodeBytes([]) + [];
    BytesParity(KEY_ONLY, 1);
    assert CsBytes(KEY_ONLY, 1) == Some(([], 2));
  }

  /** An instance: a key without a value, which Windows drops and Linux refuses. */
  lemma KeyWithoutValue(lenient: Bytes -> Text)
    ensures var data := [10, 2, 10, 0]; CsMap(data, 0, map[], lenient) == Some(map[]) && ParseMap(data, map[]).None?
  {
    var data := [10] + EncodeBytes(KEY_ONLY);
    assert KEY_ONLY == [10, 0] && data == [10, 2, 10, 0];
    ReadTag(10, EncodeBytes(KEY_ONLY));
    TakeEncoded(KEY_ONLY, []);
    assert EncodeBytes(KEY_ONLY) + [] == EncodeBytes(KEY_ONLY) == data[1..];
    ReadsKeyOnly();
    assert MapField(data, map[]).None?;
    assert data[0..] == data && CsVarint(data, 0) == Some((10, 1));
    BytesParity(data, 1);
    assert CsBytes(data, 1) == Some((KEY_ONLY, 4));
    DropsKeyOnly(lenient);
    assert CsMapField(data, 0, map[], lenient) == Some((4, map[]));
  }
}
