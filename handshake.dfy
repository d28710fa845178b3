/**
 * The crypto handshake message codec (quic/handshake.py).
 *
 * Wire layout of a message with n tags:
 *   message tag (4 bytes) | n as u16 little-endian | two zero bytes
 *   | n entries of (tag number as u32 LE, end offset of its value as u32 LE)
 *   | the values, concatenated in the order of the entries.
 * The end offset of entry i is the total length of values 0..i, so value i
 * sits between the end offsets of entries i - 1 and i, counted from the
 * values offset 8 + 8n.
 */
module Handshake {

  import opened Wrappers
  import opened Bytes
  import opened Seqs
  import opened Tags

  const TwoTo32: nat := 0x1_0000_0000
  const TwoTo16: nat := 0x1_0000

  lemma Pow256Values()
    ensures Pow256(2) == TwoTo16 && Pow256(4) == TwoTo32
  {
    assert Pow256(1) == 256;
    assert Pow256(3) == 256 * 256 * 256;
  }

  /**
   * A tag value as the encoder receives it: a `str`, a `bytes`, or any other
   * Python object, which the encoder cannot serialize but whose `len()`, when
   * it has one, still enters the tag table.
   */
  datatype TagValue = Text(s: string) | Raw(b: seq<Byte>) | Unsupported(len: Option<nat>)

  /** `len(value)`; None for an object without a length. */
  function PyLen(v: TagValue): Option<nat>
  {
    match v
    case Text(s) => Some(|s|)
    case Raw(b) => Some(|b|)
    case Unsupported(len) => len
  }

  /**
   * `serialize_tag_value`: a str becomes its ASCII bytes, bytes stay as they
   * are; None where the source returns None or raises UnicodeEncodeError.
   */
  function SerializeTagValue(v: TagValue): (r: Option<seq<Byte>>)
    ensures r.Some? <==> v.Raw? || (v.Text? && IsAscii(v.s))
    ensures v.Raw? ==> r == Some(v.b)
    ensures v.Text? && r.Some? ==> AsciiDecode(r.value) == Some(v.s)
    ensures r.Some? ==> PyLen(v) == Some(|r.value|)
  {
    match v
    case Text(s) =>
      if IsAscii(s) then AsciiDecodeEncode(s); AsciiEncode(s) else None
    case Raw(b) => Some(b)
    case Unsupported(_) => None
  }

  /**
   * `serialize_tag`: the tag number and the end offset of its value, each as
   * 4 bytes little-endian; None where `int.to_bytes` raises OverflowError.
   */
  function SerializeTag(tag: int, valueEndOffset: int): (r: Option<seq<Byte>>)
    ensures r.Some? <==> 0 <= tag < TwoTo32 && 0 <= valueEndOffset < TwoTo32
    ensures r.Some? ==> |r.value| == 8 && LeValue(r.value[..4]) == tag && LeValue(r.value[4..]) == valueEndOffset
  {
    Pow256Values();
    if 0 <= tag < TwoTo32 && 0 <= valueEndOffset < TwoTo32 then
      var e := LeBytes(tag, 4) + LeBytes(valueEndOffset, 4);
      assert e[..4] == LeBytes(tag, 4) && e[4..] == LeBytes(valueEndOffset, 4);
      Some(e)
    else None
  }

  // ---------------------------------------------------------------------------
  // Encoding, as a specification of `Message.to_bytes`.

  /** The length `len()` gives for a value, 0 for one without a length. */
  function Len(v: TagValue): nat
  {
    match PyLen(v)
    case Some(n) => n
    case None => 0
  }

  /** The total length of a sequence of values. */
  function ValuesLen(values: seq<TagValue>): nat
  {
    if values == [] then 0 else ValuesLen(values[..|values| - 1]) + Len(values[|values| - 1])
  }

  /** The total length of the values of the entries. */
  function SumLen(items: seq<(int, TagValue)>): nat
  {
    ValuesLen(Seconds(items))
  }

  /** The total grows by the length of each entry appended. */
  lemma SumLenSnoc(items: seq<(int, TagValue)>)
    requires items != []
    ensures SumLen(items) == SumLen(items[..|items| - 1]) + Len(items[|items| - 1].1)
  {
    assert Seconds(items)[..|items| - 1] == Seconds(items[..|items| - 1]);
  }

  /** The end offset stored in table entry i: the length of values 0..i together. */
  function EndOffset(items: seq<(int, TagValue)>, i: nat): nat
    requires i < |items|
  {
    SumLen(items[..i + 1])
  }

  /** The 8 bytes of a table entry, for a tag number and end offset that fit. */
  function EntryBytes(tag: int, valueEndOffset: int): seq<Byte>
  {
    match SerializeTag(tag, valueEndOffset)
    case Some(e) => e
    case None => []
  }

  /** The table entry of each tag: its number and the end offset of its value. */
  function TableEntries(items: seq<(int, TagValue)>): (r: seq<seq<Byte>>)
    ensures |r| == |items|
  {
    seq(|items|, i requires 0 <= i < |items| => EntryBytes(items[i].0, EndOffset(items, i)))
  }

  /**
   * The tag table `_serialize_tags` returns for the entries; None where its loop
   * raises (a value without a length, a number or an offset outside 32 bits).
   */
  function TagTable(items: seq<(int, TagValue)>): Option<seq<Byte>>
  {
    if TableEncodable(items) then Some(Concat(TableEntries(items))) else None
  }

  /** `_serialize_tag_values`: the serialized values folded together, in order. */
  function SerializeTagValues(values: seq<TagValue>): (r: Option<seq<Byte>>)
    ensures r.Some? <==> forall i :: 0 <= i < |values| ==> SerializeTagValue(values[i]).Some?
    ensures r.Some? ==> r.value == Concat(SerializedValues(values))
  {
    if values == [] then Some([])
    else
      var init := values[..|values| - 1];
      assert SerializedValues(values)[..|values| - 1] == SerializedValues(init)
        by { if forall i :: 0 <= i < |values| ==> SerializeTagValue(values[i]).Some? {} }
      match (SerializeTagValues(init), SerializeTagValue(values[|values| - 1]))
      case (Some(front), Some(last)) => Some(front + last)
      case _ => None
  }

  /** The bytes of each value, for values that all serialize. */
  function SerializedValues(values: seq<TagValue>): (r: seq<seq<Byte>>)
    ensures |r| == |values|
  {
    seq(|values|, i requires 0 <= i < |values| =>
      match SerializeTagValue(values[i]) case Some(b) => b case None => [])
  }

  /** `Message.to_bytes` for a message tag and its tags' entries in `items()` order. */
  function EncodeMessage(tag: Option<seq<Byte>>, items: seq<(int, TagValue)>): Option<seq<Byte>>
  {
    if |items| >= TwoTo16 then None
    else
      Pow256Values();
      match (tag, TagTable(items), SerializeTagValues(Seconds(items)))
      case (Some(t), Some(table), Some(values)) => Some(t + LeBytes(|items|, 2) + [0, 0] + table + values)
      case _ => None
  }

  /** The entries' tag numbers and values can all be written to the table. */
  predicate TableEncodable(items: seq<(int, TagValue)>)
  {
    && (forall i :: 0 <= i < |items| ==> 0 <= items[i].0 < TwoTo32 && PyLen(items[i].1).Some?)
    && SumLen(items) < TwoTo32
  }

  /** The entries form a message `to_bytes` can serialize. */
  predicate Encodable(items: seq<(int, TagValue)>)
  {
    && |items| < TwoTo16
    && TableEncodable(items)
    && forall i :: 0 <= i < |items| ==> SerializeTagValue(items[i].1).Some?
  }

  lemma {:induction false} SumLenPrefix(items: seq<(int, TagValue)>, i: nat)
    requires i <= |items|
    ensures SumLen(items[..i]) <= SumLen(items)
  {
    if i < |items| {
      assert items[..|items| - 1][..i] == items[..i];
      SumLenSnoc(items);
      SumLenPrefix(items[..|items| - 1], i);
    } else {
      assert items[..i] == items;
    }
  }

  /** End offsets never decrease, and the last one is the total length of the values. */
  lemma OffsetsNonDecreasing(items: seq<(int, TagValue)>, i: nat, j: nat)
    requires i <= j < |items|
    ensures EndOffset(items, i) <= EndOffset(items, j) <= SumLen(items)
    ensures j == |items| - 1 ==> EndOffset(items, j) == SumLen(items)
  {
    assert items[..j + 1][..i + 1] == items[..i + 1];
    SumLenPrefix(items[..j + 1], i + 1);
    SumLenPrefix(items, j + 1);
    if j == |items| - 1 {
      assert items[..j + 1] == items;
    }
  }

  /** For encodable entries, every entry is 8 bytes: the tag number and end offset, u32 LE. */
  lemma TableEntry(items: seq<(int, TagValue)>, i: nat)
    requires TableEncodable(items) && i < |items|
    ensures SerializeTag(items[i].0, EndOffset(items, i)).Some?
    ensures var e := TableEntries(items)[i];
      |e| == 8 && LeValue(e[..4]) == items[i].0 && LeValue(e[4..]) == EndOffset(items, i)
  {
    OffsetsNonDecreasing(items, i, |items| - 1);
  }

  /**
   * The table is 8 bytes per tag, and entry i holds tag number i and the end
   * offset of value i, each as a u32 little-endian.
   */
  lemma TagTableLayout(items: seq<(int, TagValue)>)
    requires TableEncodable(items)
    ensures TagTable(items).Some? && |TagTable(items).value| == 8 * |items|
    ensures var t := TagTable(items).value;
      forall i :: 0 <= i < |items| ==>
        LeValue(t[8 * i..8 * i + 4]) == items[i].0 && LeValue(t[8 * i + 4..8 * i + 8]) == EndOffset(items, i)
  {
    forall i | 0 <= i < |items|
      ensures |TagTable(items).value| == 8 * |items|
      ensures LeValue(TagTable(items).value[8 * i..8 * i + 4]) == items[i].0
      ensures LeValue(TagTable(items).value[8 * i + 4..8 * i + 8]) == EndOffset(items, i)
    {
      TagTableEntryAt(items, i);
    }
    if items == [] {
      assert TagTable(items).value == [];
    }
  }

  lemma TableEntriesWidth(items: seq<(int, TagValue)>)
    requires TableEncodable(items)
    ensures forall k :: 0 <= k < |items| ==> |TableEntries(items)[k]| == 8
  {
    forall k | 0 <= k < |items| ensures |TableEntries(items)[k]| == 8 {
      TableEntry(items, k);
    }
  }

  lemma TagTableEntryAt(items: seq<(int, TagValue)>, i: nat)
    requires TableEncodable(items) && i < |items|
    ensures |TagTable(items).value| == 8 * |items|
    ensures var t := TagTable(items).value;
      LeValue(t[8 * i..8 * i + 4]) == items[i].0 && LeValue(t[8 * i + 4..8 * i + 8]) == EndOffset(items, i)
  {
    var vs := TableEntries(items);
    TableEntriesWidth(items);
    TableEntry(items, i);
    ConcatUniformPart(vs, 8, i);
    var e := Concat(vs)[8 * i..8 * i + 8];
    assert Concat(vs)[8 * i..8 * i + 4] == e[..4];
    assert Concat(vs)[8 * i + 4..8 * i + 8] == e[4..];
  }

  /** Entries are encodable when those before the last are, and the last fits with the total length. */
  lemma TableEncodableSnoc(items: seq<(int, TagValue)>)
    requires items != []
    ensures var n := |items|;
      TableEncodable(items) <==>
        && TableEncodable(items[..n - 1])
        && 0 <= items[n - 1].0 < TwoTo32 && PyLen(items[n - 1].1).Some?
        && SumLen(items) < TwoTo32
  {
    var n := |items|;
    var init := items[..n - 1];
    SumLenPrefix(items, n - 1);
    if TableEncodable(init) && 0 <= items[n - 1].0 < TwoTo32 && PyLen(items[n - 1].1).Some? && SumLen(items) < TwoTo32 {
      forall i | 0 <= i < n ensures 0 <= items[i].0 < TwoTo32 && PyLen(items[i].1).Some? {
        if i < n - 1 { assert init[i] == items[i]; }
      }
    }
  }

  /** An entry whose value has no length makes the entries unencodable. */
  lemma NoLengthNotEncodable(items: seq<(int, TagValue)>, i: nat)
    requires i < |items| && PyLen(items[i].1).None?
    ensures !TableEncodable(items)
  {
  }

  /**
   * One turn of the `_serialize_tags` loop: with entries 0 .. i - 1 encodable,
   * entry i's end offset adds its length, and its 8 bytes extend the table
   * exactly when they can be serialized.
   */
  lemma TableStep(items: seq<(int, TagValue)>, i: nat, len: nat, valueEndOffset: nat)
    requires i < |items| && TableEncodable(items[..i]) && PyLen(items[i].1) == Some(len)
    requires valueEndOffset == SumLen(items[..i]) + len
    ensures valueEndOffset == SumLen(items[..i + 1])
    ensures SerializeTag(items[i].0, valueEndOffset).None? ==> !TableEncodable(items)
    ensures SerializeTag(items[i].0, valueEndOffset).Some? ==>
      && TableEncodable(items[..i + 1])
      && Concat(TableEntries(items[..i + 1])) == Concat(TableEntries(items[..i])) + SerializeTag(items[i].0, valueEndOffset).value
  {
    assert items[..i + 1][..i] == items[..i];
    SumLenSnoc(items[..i + 1]);
    if SerializeTag(items[i].0, valueEndOffset).None? {
      SumLenPrefix(items, i + 1);
    } else {
      TableEntriesPrefix(items, i);
      TableEncodableSnoc(items[..i + 1]);
      ConcatAppend(TableEntries(items[..i]), EntryBytes(items[i].0, valueEndOffset));
    }
  }

  /** Entries before i keep their table entry when more entries follow. */
  lemma TableEntriesPrefix(items: seq<(int, TagValue)>, i: nat)
    requires i < |items|
    ensures TableEntries(items[..i + 1]) == TableEntries(items[..i]) + [EntryBytes(items[i].0, SumLen(items[..i + 1]))]
  {
    var a := TableEntries(items[..i + 1]);
    var b := TableEntries(items[..i]) + [EntryBytes(items[i].0, SumLen(items[..i + 1]))];
    forall k | 0 <= k < i + 1 ensures a[k] == b[k] {
      if k < i {
        assert items[..i + 1][..k + 1] == items[..i][..k + 1];
      } else {
        assert items[..i + 1][..k + 1] == items[..i + 1];
      }
    }
  }

  /** The table entries' values serialize to bytes whose total length is SumLen. */
  lemma {:induction false} SumLenIsLength(items: seq<(int, TagValue)>)
    requires forall i :: 0 <= i < |items| ==> SerializeTagValue(items[i].1).Some?
    ensures SumLen(items) == |Concat(SerializedValues(Seconds(items)))|
  {
    if items != [] {
      var n := |items|;
      SumLenIsLength(items[..n - 1]);
      SumLenSnoc(items);
      assert Seconds(items)[..n - 1] == Seconds(items[..n - 1]);
      assert SerializedValues(Seconds(items))[..n - 1] == SerializedValues(Seconds(items[..n - 1]));
    }
  }

  /** `to_bytes` succeeds exactly when the entries are encodable. */
  lemma EncodeSucceedsIff(tag: seq<Byte>, items: seq<(int, TagValue)>)
    ensures EncodeMessage(Some(tag), items).Some? <==> Encodable(items)
  {
    if forall i :: 0 <= i < |items| ==> SerializeTagValue(items[i].1).Some? {
    } else {
      var i :| 0 <= i < |items| && SerializeTagValue(items[i].1).None?;
      assert SerializeTagValue(Seconds(items)[i]).None?;
    }
  }

  /** Where values begin in a serialized message with tagCount tags. */
  function ValuesOffsetFor(tagCount: nat): nat
  {
    8 + tagCount * 8
  }

  /** The parts `to_bytes` joins, for encodable entries. */
  lemma EncodeParts(tag: seq<Byte>, items: seq<(int, TagValue)>)
    requires Encodable(items)
    ensures TagTable(items).Some? && SerializeTagValues(Seconds(items)).Some?
    ensures Pow256(2) == TwoTo16
    ensures EncodeMessage(Some(tag), items) == Some(tag + LeBytes(|items|, 2) + [0, 0]
      + TagTable(items).value + Concat(SerializedValues(Seconds(items))))
  {
    Pow256Values();
    EncodeSucceedsIff(tag, items);
  }

  /**
   * The layout of `to_bytes`: message tag, count as u16 LE, two zero bytes, one
   * 8-byte entry (tag number, end offset) per tag, then the values; the length
   * is the values offset plus the total value length.
   */
  lemma EncodeLayout(tag: seq<Byte>, items: seq<(int, TagValue)>)
    requires |tag| == 4 && Encodable(items)
    ensures EncodeMessage(Some(tag), items).Some?
    ensures var r := EncodeMessage(Some(tag), items).value;
      && |r| == ValuesOffsetFor(|items|) + SumLen(items)
      && r[..4] == tag && LeValue(r[4..6]) == |items| && r[6..8] == [0, 0]
    ensures var r := EncodeMessage(Some(tag), items).value;
      forall i :: 0 <= i < |items| ==>
        && LeValue(r[8 + 8 * i..12 + 8 * i]) == items[i].0
        && LeValue(r[12 + 8 * i..16 + 8 * i]) == EndOffset(items, i)
    ensures var r := EncodeMessage(Some(tag), items).value;
      r[ValuesOffsetFor(|items|)..] == Concat(SerializedValues(Seconds(items)))
  {
    EncodeParts(tag, items);
    TagTableLayout(items);
    SumLenIsLength(items);
    var table := TagTable(items).value;
    var values := Concat(SerializedValues(Seconds(items)));
    var head := tag + LeBytes(|items|, 2) + [0, 0];
    HeadLayout(tag, LeBytes(|items|, 2), table, values);
    forall i | 0 <= i < |items|
      ensures LeValue((head + table + values)[8 + 8 * i..12 + 8 * i]) == items[i].0
      ensures LeValue((head + table + values)[12 + 8 * i..16 + 8 * i]) == EndOffset(items, i)
    {
      EntryInMessage(head, table, values, i);
    }
  }

  lemma HeadLayout(tag: seq<Byte>, count: seq<Byte>, table: seq<Byte>, values: seq<Byte>)
    requires |tag| == 4 && |count| == 2
    ensures var r := tag + count + [0, 0] + table + values;
      && |r| == 8 + |table| + |values|
      && r[..4] == tag && r[4..6] == count && r[6..8] == [0, 0] && r[8 + |table|..] == values
  {
  }

  lemma EntryInMessage(head: seq<Byte>, table: seq<Byte>, values: seq<Byte>, i: nat)
    requires |head| == 8 && 8 * i + 8 <= |table|
    ensures (head + table + values)[8 + 8 * i..12 + 8 * i] == table[8 * i..8 * i + 4]
    ensures (head + table + values)[12 + 8 * i..16 + 8 * i] == table[8 * i + 4..8 * i + 8]
  {
  }

  // ---------------------------------------------------------------------------

  /** `handshake.Message`: a message tag and the tags container it owns. */
  class Message {
    var tag: Option<seq<Byte>>
    var tags: Container<TagValue>

    /** A message without a tag (Python's None) and with an empty container of its own. */
    constructor ()
      ensures tag == None && fresh(tags) && tags.Valid() && tags.pairs == []
    {
      tag := None;
      tags := new Container([]);
    }

    /** `tag_count`: the number of tags held. */
    function TagCount(): (r: nat)
      reads this, tags
      ensures tags.Valid() ==> r == |tags.Contents()| && r == |tags.Items()|
    {
      if tags.Valid() then DictOfSizeDistinct(tags.pairs); |tags.pairs| else |tags.pairs|
    }

    /** `values_offset`: where the values begin in the bytes `to_bytes` produces. */
    function ValuesOffset(): (r: nat)
      reads this, tags
      ensures r == ValuesOffsetFor(TagCount())
      ensures tags.Valid() && tag.Some? && |tag.value| == 4 && Encodable(tags.Items()) ==>
        && EncodeMessage(tag, tags.Items()).Some?
        && r <= |EncodeMessage(tag, tags.Items()).value|
        && EncodeMessage(tag, tags.Items()).value[r..] == Concat(SerializedValues(tags.Values()))
    {
      var offset := ValuesOffsetFor(TagCount());
      if tags.Valid() && tag.Some? && |tag.value| == 4 && Encodable(tags.Items()) then
        EncodeLayout(tag.value, tags.Items());
        assert tags.Values() == Seconds(tags.Items());
        offset
      else offset
    }

    /** `_serialize_tags`: appends one entry per tag while accumulating the end offset. */
    method SerializeTags() returns (r: Option<seq<Byte>>)
      requires tags.Valid()
      ensures r == TagTable(tags.Items())
    {
      var items := tags.Items();
      var buff: seq<Byte> := [];
      var valueEndOffset: nat := 0;
      var i := 0;
      while i < |items|
        invariant 0 <= i <= |items|
        invariant TableEncodable(items[..i])
        invariant valueEndOffset == SumLen(items[..i])
        invariant buff == Concat(TableEntries(items[..i]))
      {
        var (key, value) := items[i];
        var len := PyLen(value);
        if len.None? {
          NoLengthNotEncodable(items, i);
          return None;
        }
        valueEndOffset := valueEndOffset + len.value;
        var entry := SerializeTag(key, valueEndOffset);
        TableStep(items, i, len.value, valueEndOffset);
        if entry.None? {
          return None;
        }
        buff := buff + entry.value;
        i := i + 1;
      }
      assert items[..i] == items;
      return Some(buff);
    }

    /** `to_bytes`: the tag, the count, two zero bytes, the table and the values. */
    method ToBytes() returns (r: Option<seq<Byte>>)
      requires tags.Valid()
      ensures r == EncodeMessage(tag, tags.Items())
    {
      var count := TagCount();
      if count >= TwoTo16 {
        return None;
      }
      Pow256Values();
      var countBytes := LeBytes(count, 2);
      var table := SerializeTags();
      var values := SerializeTagValues(tags.Values());
      assert tags.Values() == Seconds(tags.Items());
      if tag.None? || table.None? || values.None? {
        return None;
      }
      r := Some(tag.value + countBytes + [0, 0] + table.value + values.value);
    }
  }

  // ---------------------------------------------------------------------------
  // Decoding: `decode_handshake_message` and its helpers.

  datatype DecodeError =
    | IndexError          // the buffer is too short to hold the tag count
    | UnicodeDecodeError  // a tag name holds a byte outside ASCII

  /** What the decoder puts into the fresh `Message`: its tag and a dict of named values. */
  datatype DecodedMessage = DecodedMessage(tag: seq<Byte>, tags: map<string, seq<Byte>>)

  /** `(hi << 8) | lo`; lo is a byte, so the `|` adds it to the shifted hi. */
  function ShiftOr(hi: Byte, lo: Byte): (r: nat)
    ensures r == LeValue([lo, hi])
  {
    assert [lo, hi][1..] == [hi] && [hi][1..] == [];
    assert LeValue([hi]) == hi;
    hi * 256 + lo
  }

  /** `tag_at`: the 4 bytes at position as ASCII with NULs stripped from both ends. */
  function TagAt(position: nat, data: seq<Byte>): (r: Option<string>)
    ensures r.Some? <==> forall i :: position <= i < position + 4 && i < |data| ==> data[i] < 128
    ensures r.Some? && position + 4 <= |data| ==> r.value == StripNul(AsciiDecode(data[position..position + 4]).value)
    ensures r.Some? ==> r.value == StripNul(AsciiDecode(Slice(data, position, position + 4)).value)
  {
    var b := Slice(data, position, position + 4);
    assert forall i :: position <= i < position + 4 && i < |data| ==> data[i] == b[i - position];
    match AsciiDecode(b)
    case Some(s) => Some(StripNul(s))
    case None => None
  }

  /** `tag_value_at`: the bytes between the start and end positions. */
  function TagValueAt(startEnd: (nat, nat), data: seq<Byte>): (r: seq<Byte>)
    ensures startEnd.0 <= startEnd.1 <= |data| ==> r == data[startEnd.0..startEnd.1]
    ensures startEnd.0 <= |data| < startEnd.1 ==> r == data[startEnd.0..]
    ensures startEnd.1 <= startEnd.0 || |data| <= startEnd.0 ==> r == []
  {
    Slice(data, startEnd.0, startEnd.1)
  }

  /** `int32_little_endian`: the 4 bytes at position read little-endian. */
  function Int32LittleEndian(position: nat, data: seq<Byte>): (r: nat)
    ensures r < TwoTo32 && r == LeValue(Slice(data, position, position + 4))
    ensures position + 4 <= |data| ==> LeBytes(r, 4) == data[position..position + 4]
  {
    var b := Slice(data, position, position + 4);
    Pow256Monotone(|b|, 4);
    Pow256Values();
    LeBytesOfValue(b);
    LeValue(b)
  }

  /** `tag_positions`: [8, 16, ..., 8n], where the table entries start. */
  function TagPositions(tagCount: nat): (r: seq<nat>)
    ensures |r| == tagCount && forall i :: 0 <= i < tagCount ==> r[i] == 8 + 8 * i
  {
    if tagCount == 0 then [] else TagPositions(tagCount - 1) + [8 * tagCount]
  }

  /**
   * The positions value boundaries are read from: the values offset, then for
   * each entry the values offset plus the entry's end offset.
   */
  function ValuePositions(tagCount: nat, raw: seq<Byte>): (r: seq<nat>)
    ensures |r| == tagCount + 1 && r[0] == ValuesOffsetFor(tagCount)
    ensures forall i :: 0 < i <= tagCount ==>
      r[i] == ValuesOffsetFor(tagCount) + Int32LittleEndian(4 + 8 * i, raw)
  {
    var valuesOffset := ValuesOffsetFor(tagCount);
    var positions := TagPositions(tagCount);
    var ends := MapSeq((pos: nat) => Int32LittleEndian(pos + 4, raw), positions);
    var vp := [valuesOffset] + MapSeq((p: nat) => valuesOffset + p, ends);
    ValuePositionsAt(tagCount, raw, valuesOffset, ends, vp);
    vp
  }

  /** Position i > 0 is the values offset plus the u32 at 4 + 8i. */
  lemma ValuePositionsAt(tagCount: nat, raw: seq<Byte>, valuesOffset: nat, ends: seq<nat>, vp: seq<nat>)
    requires |ends| == tagCount
    requires forall j :: 0 <= j < tagCount ==> ends[j] == Int32LittleEndian(TagPositions(tagCount)[j] + 4, raw)
    requires |vp| == tagCount + 1 && forall j :: 0 <= j < tagCount ==> vp[j + 1] == valuesOffset + ends[j]
    ensures forall i :: 0 < i <= tagCount ==> vp[i] == valuesOffset + Int32LittleEndian(4 + 8 * i, raw)
  {
    forall i | 0 < i <= tagCount ensures vp[i] == valuesOffset + Int32LittleEndian(4 + 8 * i, raw) {
      assert vp[(i - 1) + 1] == valuesOffset + ends[i - 1];
    }
  }

  /** `decode_handshake_message`, step by step as the source's pipeline. */
  function DecodeHandshakeMessage(raw: seq<Byte>): (r: Result<DecodedMessage, DecodeError>)
    ensures r.Err? && r.error == IndexError <==> |raw| < 6
    ensures r.Ok? ==> r.value.tag == Slice(raw, 0, 4) && |r.value.tags| <= ShiftOr(raw[5], raw[4])
  {
    if |raw| < 6 then Err(IndexError)
    else
      var tagCount := ShiftOr(raw[5], raw[4]);
      var valuePositions := ValuePositions(tagCount, raw);
      var names := MapSeq((pos: nat) => TagAt(pos, raw), TagPositions(tagCount));
      var values := MapSeq((se: (nat, nat)) => TagValueAt(se, raw), Zip(valuePositions, Drop1(valuePositions)));
      match AllSome(names)
      case None => Err(UnicodeDecodeError)
      case Some(ns) =>
        DictOfSize(Zip(ns, values));
        Ok(DecodedMessage(Slice(raw, 0, 4), DictOf(Zip(ns, values))))
  }
}
