/** Reading the DataStore preference map on both hosts (linux/src/preferences.rs, `Proto` and
    `import_legacy`; windows/VniDrop.Core/AppPreferences.cs, `ProtoReader` and `ImportLegacy`). */
module LegacyPreferences {
  import opened Common
  import opened Utf8
  import opened Varint

  type Bytes = seq<Byte>
  type Text = seq<Scalar>

  datatype Value = TextValue(text: Text) | BoolValue(on: bool)
  type Values = map<Text, Value>

  // ---------------------------------------------------------------- the Linux reader

  function Take(s: Bytes, length: nat): Option<(Bytes, Bytes)> {
    if length > |s| then None else Some((s[..length], s[length..]))
  }

  function TakeBytes(s: Bytes): (r: Option<(Bytes, Bytes)>)
    ensures r.Some? ==> |r.value.1| < |s|
  {
    var (size, rest) :- Read(s);
    Take(rest, size)
  }

  function Skip(s: Bytes, tag: U64): (r: Option<Bytes>)
    ensures r.Some? ==> |r.value| <= |s|
  {
    if tag / 8 == 0 then None
    else match tag % 8
      case 0 => var (_, rest) :- Read(s); Some(rest)
      case 1 => var (_, rest) :- Take(s, 8); Some(rest)
      case 2 => var (_, rest) :- TakeBytes(s); Some(rest)
      case 5 => var (_, rest) :- Take(s, 4); Some(rest)
      case _ => None
  }

  function StrictText(b: Bytes): Option<Text> {
    match Decode(b)
    case None => None
    case Some(t) => Some(t)
  }

  /** One field of a value: what it leaves to read and the value so far. */
  function ItemField(s: Bytes, value: Option<Value>): (r: Option<(Bytes, Option<Value>)>)
    ensures r.Some? ==> |r.value.0| < |s|
  {
    var (tag, rest) :- Read(s);
    if tag == 42 then
      var (b, next) :- TakeBytes(rest);
      var text :- StrictText(b);
      Some((next, Some(TextValue(text))))
    else if tag == 8 then
      var (n, next) :- Read(rest);
      Some((next, Some(BoolValue(n != 0))))
    else
      var next :- Skip(rest, tag);
      Some((next, value))
  }

  /** The three nested loops of `import_legacy`, each from its current position and variables. */
  function ParseItem(s: Bytes, value: Option<Value>): Option<Option<Value>>
    decreases |s|
  {
    if s == [] then Some(value)
    else match ItemField(s, value)
      case None => None
      case Some((next, value')) => ParseItem(next, value')
  }

  datatype Entry = Entry(key: Option<Text>, value: Option<Value>)

  function EntryField(s: Bytes, entry: Entry): (r: Option<(Bytes, Entry)>)
    ensures r.Some? ==> |r.value.0| < |s|
  {
    var (tag, rest) :- Read(s);
    if tag == 10 then
      var (b, next) :- TakeBytes(rest);
      var text :- StrictText(b);
      Some((next, entry.(key := Some(text))))
    else if tag == 18 then
      var (b, next) :- TakeBytes(rest);
      var value :- ParseItem(b, entry.value);
      Some((next, entry.(value := value)))
    else
      var next :- Skip(rest, tag);
      Some((next, entry))
  }

  function ParseEntry(s: Bytes, entry: Entry): Option<Entry>
    decreases |s|
  {
    if s == [] then Some(entry)
    else match EntryField(s, entry)
      case None => None
      case Some((next, entry')) => ParseEntry(next, entry')
  }

  const NO_ENTRY := Entry(None, None)

  /** A key without a value is an error, a value without a key is dropped. */
  function MapField(s: Bytes, values: Values): (r: Option<(Bytes, Values)>)
    ensures r.Some? ==> |r.value.0| < |s|
  {
    var (tag, rest) :- Read(s);
    if tag != 10 then
      var next :- Skip(rest, tag);
      Some((next, values))
    else
      var (b, next) :- TakeBytes(rest);
      var entry :- ParseEntry(b, NO_ENTRY);
      if entry.key.None? then Some((next, values))
      else if entry.value.None? then None
      else Some((next, values[entry.key.value := entry.value.value]))
  }

  function ParseMap(s: Bytes, values: Values): Option<Values>
    decreases |s|
  {
    if s == [] then Some(values)
    else match MapField(s, values)
      case None => None
      case Some((next, values')) => ParseMap(next, values')
  }

  // ---------------------------------------------------------------- round trip

  function EncodeBytes(b: Bytes): Bytes {
    Encode128(|b|) + b
  }

  function EncodeValue(v: Value): Bytes {
    match v
    case TextValue(text) => [42] + EncodeBytes(Encode(text))
    case BoolValue(on) => [8, if on then 1 else 0]
  }

  function EncodeFields(key: Bytes, value: Bytes): Bytes {
    [10] + (EncodeBytes(key) + ([18] + EncodeBytes(value)))
  }

  function EncodeEntry(key: Text, value: Value): Bytes {
    EncodeFields(Encode(key), EncodeValue(value))
  }

  function EncodeMap(entries: seq<(Text, Value)>): Bytes {
    if entries == [] then []
    else [10] + EncodeBytes(EncodeEntry(entries[0].0, entries[0].1)) + EncodeMap(entries[1..])
  }

  /** Later entries replace earlier ones. */
  function Collect(entries: seq<(Text, Value)>, values: Values): Values {
    if entries == [] then values else Collect(entries[1..], values[entries[0].0 := entries[0].1])
  }

  lemma ReadTag(tag: Byte, rest: Bytes)
    requires tag < 128
    ensures Read([tag] + rest) == Some((tag, rest))
  {
    assert Encode128(tag) == [tag];
    ReadEncoded(tag, rest);
  }

  lemma TakeEncoded(b: Bytes, rest: Bytes)
    requires |b| <= U64_MAX
    ensures TakeBytes(EncodeBytes(b) + rest) == Some((b, rest))
  {
    assert EncodeBytes(b) + rest == Encode128(|b|) + (b + rest);
    ReadEncoded(|b|, b + rest);
    assert (b + rest)[..|b|] == b && (b + rest)[|b|..] == rest;
  }

  lemma ItemRoundTrip(v: Value, before: Option<Value>)
    requires |EncodeValue(v)| <= U64_MAX
    ensures ParseItem(EncodeValue(v), before) == Some(Some(v))
  {
    var s := EncodeValue(v);
    match v {
      case TextValue(text) =>
        ReadTag(42, EncodeBytes(Encode(text)));
        TakeEncoded(Encode(text), []);
        assert EncodeBytes(Encode(text)) + [] == EncodeBytes(Encode(text));
        DecodeEncoded(text);
      case BoolValue(on) =>
        var flag: Byte := if on then 1 else 0;
        ReadTag(8, [flag]);
        ReadTag(flag, []);
        assert s == [8] + [flag] && [flag] + [] == [flag];
    }
  }

  lemma ReadsKeyField(key: Text, tail: Bytes)
    requires |Encode(key)| <= U64_MAX
    ensures EntryField([10] + (EncodeBytes(Encode(key)) + tail), NO_ENTRY) == Some((tail, Entry(Some(key), None)))
  {
    ReadTag(10, EncodeBytes(Encode(key)) + tail);
    TakeEncoded(Encode(key), tail);
    DecodeEncoded(key);
  }

  lemma ReadsValueField(key: Text, value: Value)
    requires |EncodeValue(value)| <= U64_MAX
    ensures EntryField([18] + EncodeBytes(EncodeValue(value)), Entry(Some(key), None))
         == Some(([], Entry(Some(key), Some(value))))
  {
    var item := EncodeBytes(EncodeValue(value));
    ReadTag(18, item);
    assert item + [] == item;
    TakeEncoded(EncodeValue(value), []);
    ItemRoundTrip(value, None);
  }

  lemma FieldSizes(key: Bytes, value: Bytes)
    ensures |key| <= |EncodeFields(key, value)| && |value| <= |EncodeFields(key, value)|
  {
  }

  lemma EntryRoundTrip(key: Text, value: Value)
    requires |EncodeEntry(key, value)| <= U64_MAX
    ensures ParseEntry(EncodeEntry(key, value), NO_ENTRY) == Some(Entry(Some(key), Some(value)))
  {
    FieldSizes(Encode(key), EncodeValue(value));
    var tail := [18] + EncodeBytes(EncodeValue(value));
    ReadsKeyField(key, tail);
    ReadsValueField(key, value);
    TwoFields(EncodeEntry(key, value), tail, NO_ENTRY, Entry(Some(key), None), Entry(Some(key), Some(value)));
  }

  lemma TwoFields(s: Bytes, tail: Bytes, e0: Entry, e1: Entry, e2: Entry)
    requires s != [] && tail != []
    requires EntryField(s, e0) == Some((tail, e1)) && EntryField(tail, e1) == Some(([], e2))
    ensures ParseEntry(s, e0) == Some(e2)
  {
    assert ParseEntry([], e2) == Some(e2);
    assert ParseEntry(tail, e1) == Some(e2);
  }

  /** The parser returns exactly the encoded map, the last duplicate of a key winning. */
  lemma {:induction false} MapRoundTrip(entries: seq<(Text, Value)>, values: Values)
    requires |EncodeMap(entries)| <= U64_MAX
    ensures ParseMap(EncodeMap(entries), values) == Some(Collect(entries, values))
  {
    if entries != [] {
      var (key, value) := entries[0];
      var entry, tail := EncodeEntry(key, value), EncodeMap(entries[1..]);
      assert EncodeMap(entries) == [10] + (EncodeBytes(entry) + tail);
      ReadTag(10, EncodeBytes(entry) + tail);
      TakeEncoded(entry, tail);
      EntryRoundTrip(key, value);
      MapRoundTrip(entries[1..], values[key := value]);
    }
  }

  // ---------------------------------------------------------------- the Linux loops

  class Proto {
    var data: Bytes

    constructor (data: Bytes)
      ensures this.data == data
    {
      this.data := data;
    }

    method ReadNumber() returns (r: Option<U64>)
      modifies this
      ensures r.Some? <==> Read(old(data)).Some?
      ensures r.Some? ==> Read(old(data)) == Some((r.value, data))
    {
      var n := ReadVarint(data);
      if n.None? {
        return None;
      }
      data := n.value.1;
      return Some(n.value.0);
    }

    method TakeLength(length: nat) returns (r: Option<Bytes>)
      modifies this
      ensures r.Some? <==> Take(old(data), length).Some?
      ensures r.Some? ==> Take(old(data), length) == Some((r.value, data))
    {
      if length > |data| {
        return None;
      }
      r := Some(data[..length]);
      data := data[length..];
    }

    method ReadBytes() returns (r: Option<Bytes>)
      modifies this
      ensures r.Some? <==> TakeBytes(old(data)).Some?
      ensures r.Some? ==> TakeBytes(old(data)) == Some((r.value, data))
    {
      var size :- ReadNumber();
      r := TakeLength(size);
    }

    method SkipField(tag: U64) returns (r: Option<()>)
      modifies this
      ensures r.Some? <==> Skip(old(data), tag).Some?
      ensures r.Some? ==> Skip(old(data), tag) == Some(data)
    {
      if tag / 8 == 0 {
        return None;
      }
      match tag % 8 {
        case 0 => var _ :- ReadNumber();
        case 1 => var _ :- TakeLength(8);
        case 2 => var _ :- ReadBytes();
        case 5 => var _ :- TakeLength(4);
        case _ => return None;
      }
      return Some(());
    }
  }

  /** The parse of `import_legacy`: three nested loops over slices consumed in place. */
  method ImportValues(bytes: Bytes) returns (r: Option<Values>)
    ensures r == ParseMap(bytes, map[])
  {
    var values: Values := map[];
    var reader := new Proto(bytes);
    while reader.data != []
      invariant fresh(reader) && ParseMap(bytes, map[]) == ParseMap(reader.data, values)
      decreases |reader.data|
    {
      values :- ImportMapField(reader, values);
    }
    return Some(values);
  }

  method ImportMapField(reader: Proto, values: Values) returns (r: Option<Values>)
    modifies reader
    ensures r.Some? <==> MapField(old(reader.data), values).Some?
    ensures r.Some? ==> MapField(old(reader.data), values) == Some((reader.data, r.value))
  {
    var tag :- reader.ReadNumber();
    if tag != 10 {
      var _ :- reader.SkipField(tag);
      return Some(values);
    }
    var b :- reader.ReadBytes();
    var entry :- ImportEntry(b);
    if entry.key.None? {
      return Some(values);
    }
    if entry.value.None? {
      return None;
    }
    return Some(values[entry.key.value := entry.value.value]);
  }

  method ImportEntry(bytes: Bytes) returns (r: Option<Entry>)
    ensures r == ParseEntry(bytes, NO_ENTRY)
  {
    var entry := NO_ENTRY;
    var reader := new Proto(bytes);
    while reader.data != []
      invariant fresh(reader) && ParseEntry(bytes, NO_ENTRY) == ParseEntry(reader.data, entry)
      decreases |reader.data|
    {
      entry :- ImportEntryField(reader, entry);
    }
    return Some(entry);
  }

  method ImportEntryField(reader: Proto, entry: Entry) returns (r: Option<Entry>)
    modifies reader
    ensures r.Some? <==> EntryField(old(reader.data), entry).Some?
    ensures r.Some? ==> EntryField(old(reader.data), entry) == Some((reader.data, r.value))
  {
    var tag :- reader.ReadNumber();
    if tag == 10 {
      var b :- reader.ReadBytes();
      var text :- StrictText(b);
      return Some(entry.(key := Some(text)));
    }
    if tag == 18 {
      var b :- reader.ReadBytes();
      var value :- ImportItem(b, entry.value);
      return Some(entry.(value := value));
    }
    var _ :- reader.SkipField(tag);
    return Some(entry);
  }

  method ImportItem(bytes: Bytes, before: Option<Value>) returns (r: Option<Option<Value>>)
    ensures r == ParseItem(bytes, before)
  {
    var value := before;
    var reader := new Proto(bytes);
    while reader.data != []
      invariant fresh(reader) && ParseItem(bytes, before) == ParseItem(reader.data, value)
      decreases |reader.data|
    {
      value :- ImportItemField(reader, value);
    }
    return Some(value);
  }

  method ImportItemField(reader: Proto, value: Option<Value>) returns (r: Option<Option<Value>>)
    modifies reader
    ensures r.Some? <==> ItemField(old(reader.data), value).Some?
    ensures r.Some? ==> ItemField(old(reader.data), value) == Some((reader.data, r.value))
  {
    var tag :- reader.ReadNumber();
    if tag == 42 {
      var b :- reader.ReadBytes();
      var text :- StrictText(b);
      return Some(Some(TextValue(text)));
    }
    if tag == 8 {
      var n :- reader.ReadNumber();
      return Some(Some(BoolValue(n != 0)));
    }
    var _ :- reader.SkipField(tag);
    return Some(value);
  }
}
