/**
 * The behaviours the repository's unit tests describe, stated on concrete
 * inputs against the model.
 */
module Scenarios {

  import opened Wrappers
  import opened Bytes
  import opened Seqs
  import opened Tags
  import opened Handshake

  /** `tag_at(4, b'....MSPC...')` is 'MSPC'. */
  lemma TagAtReadsName()
    ensures TagAt(4, [0x2e, 0x2e, 0x2e, 0x2e, 0x4d, 0x53, 0x50, 0x43, 0x2e, 0x2e, 0x2e]) == Some("MSPC")
  {
    var data: seq<Byte> := [0x2e, 0x2e, 0x2e, 0x2e, 0x4d, 0x53, 0x50, 0x43, 0x2e, 0x2e, 0x2e];
    var s := AsciiDecode(data[4..8]).value;
    assert s == "MSPC";
    assert TrimLeadingNul(s) == s;
    assert TrimTrailingNul(s) == s;
  }

  /** `tag_at(4, b'....VER\x00...')` is 'VER': the trailing NUL is stripped. */
  lemma TagAtStripsNul()
    ensures TagAt(4, [0x2e, 0x2e, 0x2e, 0x2e, 0x56, 0x45, 0x52, 0x00, 0x2e, 0x2e, 0x2e]) == Some("VER")
  {
    var data: seq<Byte> := [0x2e, 0x2e, 0x2e, 0x2e, 0x56, 0x45, 0x52, 0x00, 0x2e, 0x2e, 0x2e];
    var s := AsciiDecode(data[4..8]).value;
    assert s == "VER\0";
    assert TrimLeadingNul(s) == s;
    assert s[..3] == "VER";
    assert TrimTrailingNul("VER") == "VER";
  }

  /** `int32_little_endian(4, b'....\x01\x02\x03\x04...')` is 0x04030201. */
  lemma Int32Example()
    ensures Int32LittleEndian(4, [0x2e, 0x2e, 0x2e, 0x2e, 1, 2, 3, 4, 0x2e, 0x2e, 0x2e]) == 0x04030201
  {
    var data: seq<Byte> := [0x2e, 0x2e, 0x2e, 0x2e, 1, 2, 3, 4, 0x2e, 0x2e, 0x2e];
    var b: seq<Byte> := [1, 2, 3, 4];
    assert Slice(data, 4, 8) == b;
    LeValueSteps(b);
  }

  lemma LeValueSteps(b: seq<Byte>)
    requires b == [1, 2, 3, 4]
    ensures LeValue(b) == 0x04030201
  {
    assert b[1..] == [2, 3, 4] && b[1..][1..] == [3, 4] && b[1..][1..][1..] == [4];
    assert LeValue([4]) == 4;
    assert LeValue([3, 4]) == 3 + 256 * 4;
    assert LeValue([2, 3, 4]) == 2 + 256 * (3 + 256 * 4);
  }

  /** `tag_positions(3)` is [8, 16, 24]. */
  lemma TagPositionsExample()
    ensures TagPositions(3) == [8, 16, 24]
  {
  }

  /** One-letter tag names are their ASCII code. */
  lemma OneLetterNames()
    ensures IntTagName(Name("V")) == Some(0x56) && IntTagName(Name("P")) == Some(0x50)
    ensures IntTagName(Name("A")) == Some(0x41)
    ensures IntTagName(Name("1")) == Some(0x31) && IntTagName(Name("2")) == Some(0x32)
  {
    assert AsciiEncode("V").value == [0x56] && AsciiEncode("P").value == [0x50];
    assert AsciiEncode("A").value == [0x41];
    assert AsciiEncode("1").value == [0x31] && AsciiEncode("2").value == [0x32];
  }

  /** `items()`, `keys()` and `values()` list 'A', 'P', 'V' in that order, whatever the order they were set in. */
  method SortedViewsScenario() returns (keys: seq<int>, values: seq<string>)
    ensures keys == [0x41, 0x50, 0x56]
    ensures values == ["value2", "value3", "value1"]
  {
    OneLetterNames();
    var c := new Container<string>([]);
    var ok := c.Set(Name("V"), "value1");
    ok := c.Set(Name("P"), "value3");
    ok := c.Set(Name("A"), "value2");
    assert c.Contents() == map[0x56 := "value1", 0x50 := "value3", 0x41 := "value2"];
    var items := c.Items();
    SortedOfThree(items);
    keys := c.Keys();
    values := c.Values();
  }

  lemma SortedOfThree(items: seq<(int, string)>)
    requires StrictlyAscending(items) && DictOf(items) == map[0x56 := "value1", 0x50 := "value3", 0x41 := "value2"]
    ensures items == [(0x41, "value2"), (0x50, "value3"), (0x56, "value1")]
  {
    var expected := [(0x41, "value2"), (0x50, "value3"), (0x56, "value1")];
    assert DictOf(expected) == map[0x56 := "value1", 0x50 := "value3", 0x41 := "value2"];
    AscendingUnique(items, expected);
  }

  /** `Container({'1': 'value1', '2': 'value2'}).items()` is [(0x31, 'value1'), (0x32, 'value2')]. */
  method ConstructorScenario() returns (items: seq<(int, string)>)
    ensures items == [(0x31, "value1"), (0x32, "value2")]
  {
    OneLetterNames();
    var init := [(Name("1"), "value1"), (Name("2"), "value2")];
    var c := new Container(init);
    var expected := [(0x31, "value1"), (0x32, "value2")];
    AssignAllContents(init);
    assert Normalised(init) == expected;
    items := c.Items();
    AscendingUnique(items, expected);
  }

  /**
   * A CHLO message holding 'SNI' (tag number 0x494e53) with value
   * 'www.example.com': the tag, the count 1 with its padding, the entry
   * `SNI\0` with end offset 15, then the value at 16 .. 31.
   */
  lemma ChloWithSni()
    ensures var r := EncodeMessage(Some([0x43, 0x48, 0x4c, 0x4f]), [(0x494e53, Text("www.example.com"))]);
      && r.Some? && |r.value| == 31
      && r.value[..4] == [0x43, 0x48, 0x4c, 0x4f]
      && r.value[4..8] == [1, 0, 0, 0]
      && r.value[8..12] == [0x53, 0x4e, 0x49, 0]
      && r.value[12..16] == [0x0f, 0, 0, 0]
      && r.value[16..] == AsciiEncode("www.example.com").value
  {
    var v := Text("www.example.com");
    var b := AsciiEncode("www.example.com").value;
    assert SerializeTagValue(v) == Some(b);
    OneEntryLayout([0x43, 0x48, 0x4c, 0x4f], 0x494e53, v, b);
    SniEntryBytes();
  }

  /**
   * A message of one entry: the header with count 1, the entry (the key and
   * the length of the value, u32 little-endian each) and the value.
   */
  lemma OneEntryLayout(tag: seq<Byte>, key: int, v: TagValue, b: seq<Byte>)
    requires |tag| == 4 && 0 <= key < TwoTo32 && SerializeTagValue(v) == Some(b) && |b| < TwoTo32
    ensures Pow256(4) == TwoTo32
    ensures var r := EncodeMessage(Some(tag), [(key, v)]);
      && r.Some? && |r.value| == 16 + |b| && r.value[..4] == tag && r.value[4..8] == [1, 0, 0, 0]
      && r.value[8..12] == LeBytes(key, 4) && r.value[12..16] == LeBytes(|b|, 4) && r.value[16..] == b
  {
    OneEntryMessage(tag, key, v, b);
    assert LeBytes(1, 2) + [0, 0] == [1, 0, 0, 0] by {
      assert LeBytes(0, 1) == [0];
    }
    MessagePieces(tag, LeBytes(1, 2), LeBytes(key, 4) + LeBytes(|b|, 4), b);
  }

  /** The parts `to_bytes` joins for a message of one entry. */
  lemma OneEntryMessage(tag: seq<Byte>, key: int, v: TagValue, b: seq<Byte>)
    requires |tag| == 4 && 0 <= key < TwoTo32 && SerializeTagValue(v) == Some(b) && |b| < TwoTo32
    ensures Pow256(4) == TwoTo32 && Pow256(2) == TwoTo16
    ensures EncodeMessage(Some(tag), [(key, v)]) == Some(tag + LeBytes(1, 2) + [0, 0] + (LeBytes(key, 4) + LeBytes(|b|, 4)) + b)
  {
    Pow256Values();
    var items := [(key, v)];
    SingleTable(key, v);
    SingleValues(key, v, b);
    assert Encodable(items);
    EncodeParts(tag, items);
    assert EntryBytes(key, |b|) == LeBytes(key, 4) + LeBytes(|b|, 4);
  }

  /** The table of a message with one entry is that entry's 8 bytes. */
  lemma SingleTable(key: int, v: TagValue)
    requires 0 <= key < TwoTo32 && PyLen(v).Some? && Len(v) < TwoTo32
    ensures SumLen([(key, v)]) == Len(v) && TableEncodable([(key, v)])
    ensures TagTable([(key, v)]) == Some(EntryBytes(key, Len(v)))
  {
    var items := [(key, v)];
    var none: seq<seq<Byte>> := [];
    assert Seconds(items) == [v];
    SumLenSnoc(items);
    assert items[..0] == [] && items[..1] == items;
    assert SumLen(items) == Len(v);
    assert TableEncodable(items);
    assert EndOffset(items, 0) == Len(v);
    var e := EntryBytes(key, Len(v));
    assert TableEntries(items) == none + [e];
    ConcatAppend(none, e);
    assert Concat(none) == [];
    assert Concat(TableEntries(items)) == e;
    assert TagTable(items) == Some(e);
  }

  /** The values section of a message with one entry is that entry's serialized value. */
  lemma SingleValues(key: int, v: TagValue, b: seq<Byte>)
    requires SerializeTagValue(v) == Some(b)
    ensures Len(v) == |b|
    ensures SerializeTagValues(Seconds([(key, v)])) == Some(b)
  {
    assert PyLen(v) == Some(|b|);
    assert Seconds([(key, v)]) == [v];
    assert [v][..0] == [];
    var empty: seq<TagValue> := [];
    assert SerializeTagValues(empty) == Some([]);
    assert [v][..0] == empty;
    assert SerializeTagValues([v]) == Some([] + b);
    assert [] + b == b;
  }

  lemma SniEntryBytes()
    ensures Pow256(4) == TwoTo32
    ensures LeBytes(0x494e53, 4) == [0x53, 0x4e, 0x49, 0] && LeBytes(15, 4) == [0x0f, 0, 0, 0]
  {
    Pow256Values();
    assert LeBytes(0, 1) == [0];
    assert LeBytes(0x49, 2) == [0x49, 0];
    assert LeBytes(0x494e, 3) == [0x4e, 0x49, 0];
    assert LeBytes(0x494e53, 4) == [0x53, 0x4e, 0x49, 0];
    assert LeBytes(0, 2) == [0, 0];
    assert LeBytes(0, 3) == [0, 0, 0];
    assert LeBytes(15, 4) == [0x0f, 0, 0, 0];
  }

  /** Where the pieces of a one-entry message sit in its bytes. */
  lemma MessagePieces(t: seq<Byte>, c: seq<Byte>, e: seq<Byte>, v: seq<Byte>)
    requires |t| == 4 && |c| == 2 && |e| == 8
    ensures var r := t + c + [0, 0] + e + v;
      && |r| == 16 + |v| && r[..4] == t && r[4..8] == c + [0, 0]
      && r[8..12] == e[..4] && r[12..16] == e[4..] && r[16..] == v
  {
  }

  /**
   * A value of another type that has a length still gets its table entry;
   * one without a length stops the table; either way `to_bytes` fails on
   * serializing the value itself.
   */
  lemma TableOfUnsupported()
    ensures TagTable([(0x41, Unsupported(Some(3)))]) == Some(EntryBytes(0x41, 3))
    ensures TagTable([(0x41, Unsupported(None))]) == None
    ensures EncodeMessage(Some([0x43, 0x48, 0x4c, 0x4f]), [(0x41, Unsupported(Some(3)))]) == None
  {
    var v := Unsupported(Some(3));
    SingleTable(0x41, v);
    assert Seconds([(0x41, v)]) == [v];
    assert SerializeTagValue(v).None?;
    assert !TableEncodable([(0x41, Unsupported(None))]) by {
      var w := Unsupported(None);
      assert [(0x41, w)][0].1 == w;
    }
  }
}
