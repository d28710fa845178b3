/**
 * What a message's bytes decode back to. `Message.to_bytes` writes each tag
 * as its number, `decode_handshake_message` reads it back as a name (the
 * number's 4 little-endian bytes as ASCII, NULs stripped), so the round trip
 * maps every tag number to its name and every value to its serialized bytes.
 * For a number whose low byte is not 0, `_int_tag_name` turns that name back
 * into the same number.
 */
module RoundTrip {

  import opened Wrappers
  import opened Bytes
  import opened Seqs
  import opened Tags
  import opened Handshake
  import Proto

  /** The 4 bytes a tag number is written as. */
  function KeyBytes(key: int): (r: seq<Byte>)
    requires 0 <= key < TwoTo32
    ensures |r| == 4 && LeValue(r) == key && r[0] == key % 256
  {
    Pow256Values();
    LeBytesLowByte(key, 4);
    LeBytes(key, 4)
  }

  /** A tag number that fits the table and whose bytes `tag_at` can decode. */
  predicate AsciiKey(key: int)
  {
    0 <= key < TwoTo32 && forall j :: 0 <= j < 4 ==> KeyBytes(key)[j] < 128
  }

  /**
   * The name `tag_at` reads back for a tag number; for a number with a non-zero
   * low byte, `_int_tag_name` of that name is the number again.
   */
  function KeyName(key: int): (r: string)
    requires AsciiKey(key)
    ensures |r| <= 4 && IsAscii(r)
    ensures key % 256 != 0 ==> IntTagName(Name(r)) == Some(key)
  {
    var b := KeyBytes(key);
    var s := AsciiDecode(b).value;
    var r := StripNul(s);
    if key % 256 != 0 then
      assert TrimLeadingNul(s) == s by { assert s[0] as int == b[0]; }
      KeyNameNumber(b, s, r);
      r
    else r
  }

  lemma KeyNameNumber(b: seq<Byte>, s: string, r: string)
    requires AsciiDecode(b) == Some(s) && r == TrimTrailingNul(s)
    ensures IsAscii(r) && IntTagName(Name(r)) == Some(LeValue(b))
  {
    TrimTrailingNulPadding(s);
    var e := AsciiEncode(r).value;
    assert e == b[..|r|] by {
      forall i | 0 <= i < |r| ensures e[i] == b[i] {
        assert r[i] == s[..|r|][i];
      }
    }
    forall i | |r| <= i < |b| ensures b[i] == 0 {
      assert s[i] == NUL;
    }
    LeValueZeroSuffix(b, |r|);
  }

  /** Zero bytes at the high end do not change a little-endian number. */
  lemma {:induction false} LeValueZeroSuffix(b: seq<Byte>, k: nat)
    requires k <= |b| && forall i :: k <= i < |b| ==> b[i] == 0
    ensures LeValue(b[..k]) == LeValue(b)
  {
    if k == 0 {
      LeValueZeros(b);
    } else {
      assert b[..k][1..] == b[1..][..k - 1];
      LeValueZeroSuffix(b[1..], k - 1);
    }
  }

  lemma {:induction false} LeValueZeros(b: seq<Byte>)
    requires forall i :: 0 <= i < |b| ==> b[i] == 0
    ensures LeValue(b) == 0
  {
    if b != [] {
      LeValueZeros(b[1..]);
    }
  }

  /** Different tag numbers with non-zero low bytes have different names. */
  lemma KeyNameInjective(a: int, b: int)
    requires AsciiKey(a) && AsciiKey(b) && a % 256 != 0 && b % 256 != 0
    ensures KeyName(a) == KeyName(b) ==> a == b
  {
  }

  // ---------------------------------------------------------------------------
  // Reading the fields of an encoded message.

  /** What the decoder relies on in the bytes `to_bytes` writes for the entries. */
  predicate Laid(raw: seq<Byte>, items: seq<(int, TagValue)>)
  {
    && |raw| == ValuesOffsetFor(|items|) + SumLen(items)
    && LeValue(raw[4..6]) == |items|
    && (forall i :: 0 <= i < |items| ==>
      && LeValue(raw[8 + 8 * i..12 + 8 * i]) == items[i].0
      && LeValue(raw[12 + 8 * i..16 + 8 * i]) == EndOffset(items, i))
    && raw[ValuesOffsetFor(|items|)..] == Concat(SerializedValues(Seconds(items)))
  }

  lemma EncodedIsLaid(tag: seq<Byte>, items: seq<(int, TagValue)>)
    requires |tag| == 4 && Encodable(items)
    ensures EncodeMessage(Some(tag), items).Some?
    ensures var raw := EncodeMessage(Some(tag), items).value;
      Laid(raw, items) && raw[..4] == tag
  {
    EncodeLayout(tag, items);
  }

  /** The name entry i of an encoded message is read as. */
  lemma NameInMessage(raw: seq<Byte>, items: seq<(int, TagValue)>, i: nat)
    requires Laid(raw, items) && Encodable(items) && i < |items|
    ensures Proto.NameAt(raw, i).Some? <==> AsciiKey(items[i].0)
    ensures AsciiKey(items[i].0) ==> Proto.NameAt(raw, i) == Some(KeyName(items[i].0))
  {
    NameOfNumber(raw, 8 + 8 * i, items[i].0);
  }

  /** The name `tag_at` reads from 4 bytes holding a tag number. */
  lemma NameOfNumber(raw: seq<Byte>, p: nat, key: int)
    requires p + 4 <= |raw| && 0 <= key < TwoTo32 && LeValue(raw[p..p + 4]) == key
    ensures TagAt(p, raw).Some? <==> AsciiKey(key)
    ensures AsciiKey(key) ==> TagAt(p, raw) == Some(KeyName(key))
  {
    var b := raw[p..p + 4];
    LeBytesOfValue(b);
    Pow256Values();
    assert b == KeyBytes(key);
    assert forall j :: p <= j < p + 4 ==> raw[j] == b[j - p];
  }

  /** The end offset entry i of a buffer holds (the u32 at 12 + 8i) is that of the entries. */
  predicate EndOffsetIn(raw: seq<Byte>, items: seq<(int, TagValue)>, i: nat)
    requires i < |items|
  {
    16 + 8 * i <= |raw| && LeValue(raw[12 + 8 * i..16 + 8 * i]) == EndOffset(items, i)
  }

  /** Value boundary i of an encoded message: the values offset plus the length of values 0 .. i - 1. */
  lemma BoundaryInMessage(raw: seq<Byte>, items: seq<(int, TagValue)>, i: nat)
    requires i <= |items| && (i > 0 ==> EndOffsetIn(raw, items, i - 1))
    ensures Proto.Boundary(raw, |items|, i) == ValuesOffsetFor(|items|) + SumLen(items[..i])
  {
    if i > 0 {
      var b := raw[12 + 8 * (i - 1)..16 + 8 * (i - 1)];
      var r := Int32LittleEndian(4 + 8 * i, raw);
      Pow256Values();
      assert LeBytes(r, 4) == b;
    }
  }

  /** Value i of an encoded message is the serialized value of entry i. */
  lemma ValueInMessage(raw: seq<Byte>, items: seq<(int, TagValue)>, i: nat)
    requires Laid(raw, items) && Encodable(items) && i < |items|
    ensures Proto.ValueAt(raw, |items|, i) == SerializeTagValue(items[i].1).value
  {
    if i > 0 {
      assert EndOffsetIn(raw, items, i - 1);
    }
    assert EndOffsetIn(raw, items, i);
    ValueBetweenBoundaries(raw, items, i);
  }

  /** The same, from the two end offsets around value i and the values section. */
  lemma ValueBetweenBoundaries(raw: seq<Byte>, items: seq<(int, TagValue)>, i: nat)
    requires Encodable(items) && i < |items|
    requires i > 0 ==> EndOffsetIn(raw, items, i - 1)
    requires EndOffsetIn(raw, items, i)
    requires ValuesOffsetFor(|items|) <= |raw|
    requires raw[ValuesOffsetFor(|items|)..] == Concat(SerializedValues(Seconds(items)))
    ensures Proto.ValueAt(raw, |items|, i) == SerializeTagValue(items[i].1).value
  {
    var lo := ValuesOffsetFor(|items|) + SumLen(items[..i]);
    var hi := ValuesOffsetFor(|items|) + SumLen(items[..i + 1]);
    ValueBetween(raw, items, i, lo, hi);
    BoundaryInMessage(raw, items, i);
    BoundaryInMessage(raw, items, i + 1);
    ValueAtBoundaries(raw, |items|, i, lo, hi, SerializeTagValue(items[i].1).value);
  }

  /** The bytes `ValueAt` reads for entry i are those between boundaries i and i + 1. */
  lemma ValueAtBoundaries(raw: seq<Byte>, n: nat, i: nat, lo: nat, hi: nat, v: seq<Byte>)
    requires Proto.Boundary(raw, n, i) == lo && Proto.Boundary(raw, n, i + 1) == hi
    requires TagValueAt((lo, hi), raw) == v
    ensures Proto.ValueAt(raw, n, i) == v
  {
  }

  /** In a buffer whose values section holds the entries' values, value i lies where SumLen says. */
  lemma ValueBetween(raw: seq<Byte>, items: seq<(int, TagValue)>, i: nat, lo: nat, hi: nat)
    requires Encodable(items) && i < |items|
    requires ValuesOffsetFor(|items|) <= |raw|
    requires raw[ValuesOffsetFor(|items|)..] == Concat(SerializedValues(Seconds(items)))
    requires lo == ValuesOffsetFor(|items|) + SumLen(items[..i])
    requires hi == ValuesOffsetFor(|items|) + SumLen(items[..i + 1])
    ensures TagValueAt((lo, hi), raw) == SerializeTagValue(items[i].1).value
  {
    ValuesPartAt(items, i);
    SliceAt(raw, ValuesOffsetFor(|items|), Concat(SerializedValues(Seconds(items))), SumLen(items[..i]), SumLen(items[..i + 1]));
  }

  /** Bytes a .. b of a section that starts at offset vo are bytes vo + a .. vo + b of the buffer. */
  lemma SliceAt(raw: seq<Byte>, vo: nat, section: seq<Byte>, a: nat, b: nat)
    requires vo <= |raw| && raw[vo..] == section && a <= b <= |section|
    ensures TagValueAt((vo + a, vo + b), raw) == section[a..b]
  {
    SliceOfSuffix(raw, vo, a, b);
  }

  /** In the values section, value i lies between the lengths of values 0 .. i - 1 and 0 .. i. */
  lemma ValuesPartAt(items: seq<(int, TagValue)>, i: nat)
    requires Encodable(items) && i < |items|
    ensures SumLen(items[..i]) <= SumLen(items[..i + 1]) <= SumLen(items)
    ensures |Concat(SerializedValues(Seconds(items)))| == SumLen(items)
    ensures Concat(SerializedValues(Seconds(items)))[SumLen(items[..i])..SumLen(items[..i + 1])]
      == SerializeTagValue(items[i].1).value
  {
    var vs := SerializedValues(Seconds(items));
    ValuesPrefixLength(items, i);
    ValuesPrefixLength(items, i + 1);
    ConcatPart(vs, i);
    SumLenIsLength(items);
  }

  /** The serialized values of the first i entries are SumLen of them long. */
  lemma ValuesPrefixLength(items: seq<(int, TagValue)>, i: nat)
    requires Encodable(items) && i <= |items|
    ensures |Concat(SerializedValues(Seconds(items))[..i])| == SumLen(items[..i])
  {
    var pre := items[..i];
    assert forall j :: 0 <= j < |pre| ==> SerializeTagValue(pre[j].1).Some?;
    SumLenIsLength(pre);
    assert SerializedValues(Seconds(pre)) == SerializedValues(Seconds(items))[..i];
  }

  // ---------------------------------------------------------------------------
  // The round trip.

  /** The (name, value) pairs an encoded message decodes to, in table order. */
  function NamedValues(items: seq<(int, TagValue)>): (r: seq<(string, seq<Byte>)>)
    requires forall i :: 0 <= i < |items| ==> AsciiKey(items[i].0) && SerializeTagValue(items[i].1).Some?
    ensures |r| == |items|
  {
    seq(|items|, i requires 0 <= i < |items| => (KeyName(items[i].0), SerializeTagValue(items[i].1).value))
  }

  /**
   * Decoding what `to_bytes` wrote gives back the message tag, the number of
   * tags, and the dict from each tag's name to its serialized value.
   */
  lemma DecodeEncode(tag: seq<Byte>, items: seq<(int, TagValue)>)
    requires |tag| == 4 && Encodable(items)
    requires forall i :: 0 <= i < |items| ==> AsciiKey(items[i].0)
    ensures EncodeMessage(Some(tag), items).Some?
    ensures Proto.DecodeHandshakeMessage(EncodeMessage(Some(tag), items).value)
      == Ok(Proto.HandshakeMessage(tag, |items|, DictOf(NamedValues(items))))
  {
    EncodedIsLaid(tag, items);
    var raw := EncodeMessage(Some(tag), items).value;
    DecodeLaid(raw, tag, items);
  }

  lemma DecodeLaid(raw: seq<Byte>, tag: seq<Byte>, items: seq<(int, TagValue)>)
    requires Laid(raw, items) && raw[..4] == tag && Encodable(items)
    requires forall i :: 0 <= i < |items| ==> AsciiKey(items[i].0)
    ensures Proto.DecodeHandshakeMessage(raw) == Ok(Proto.HandshakeMessage(tag, |items|, DictOf(NamedValues(items))))
  {
    var n := |items|;
    CountInMessage(raw, items);
    forall i | 0 <= i < n ensures Proto.NameAt(raw, i) == Some(KeyName(items[i].0)) {
      NameInMessage(raw, items, i);
    }
    assert Proto.NamesAscii(raw, n);
    forall i | 0 <= i < n ensures Proto.Entries(raw, n)[i] == NamedValues(items)[i] {
      ValueInMessage(raw, items, i);
    }
    assert Proto.Entries(raw, n) == NamedValues(items);
  }

  /** The header of an encoded message holds its tag count. */
  lemma CountInMessage(raw: seq<Byte>, items: seq<(int, TagValue)>)
    requires Laid(raw, items)
    ensures |raw| >= 8 && Proto.TagCount(raw) == |items|
  {
    assert raw[4..6] == [raw[4], raw[5]];
    Proto.LeValueTwo(raw[4], raw[5]);
  }

  /** A tag number whose bytes are not ASCII makes the decoder raise UnicodeDecodeError. */
  lemma DecodeEncodeNonAscii(tag: seq<Byte>, items: seq<(int, TagValue)>, i: nat)
    requires |tag| == 4 && Encodable(items) && i < |items| && !AsciiKey(items[i].0)
    ensures EncodeMessage(Some(tag), items).Some?
    ensures Proto.DecodeHandshakeMessage(EncodeMessage(Some(tag), items).value) == Err(UnicodeDecodeError)
  {
    EncodedIsLaid(tag, items);
    var raw := EncodeMessage(Some(tag), items).value;
    CountInMessage(raw, items);
    NameInMessage(raw, items, i);
  }

  /**
   * For distinct tag numbers with non-zero low bytes, nothing is lost: the
   * decoded dict has one entry per tag, under its name, holding its value.
   */
  lemma DecodeEncodeEntries(tag: seq<Byte>, items: seq<(int, TagValue)>)
    requires |tag| == 4 && Encodable(items) && DistinctKeys(items)
    requires forall i :: 0 <= i < |items| ==> AsciiKey(items[i].0) && items[i].0 % 256 != 0
    ensures EncodeMessage(Some(tag), items).Some?
    ensures var d := Proto.DecodeHandshakeMessage(EncodeMessage(Some(tag), items).value);
      && d.Ok? && d.value.tagCount == |items| && |d.value.tags| == |items|
      && forall i :: 0 <= i < |items| ==>
        KeyName(items[i].0) in d.value.tags
        && d.value.tags[KeyName(items[i].0)] == SerializeTagValue(items[i].1).value
  {
    DecodeEncode(tag, items);
    var nv := NamedValues(items);
    forall i, j | 0 <= i < j < |nv| ensures nv[i].0 != nv[j].0 {
      KeyNameInjective(items[i].0, items[j].0);
    }
    DictOfSizeDistinct(nv);
    forall i | 0 <= i < |items|
      ensures KeyName(items[i].0) in DictOf(nv) && DictOf(nv)[KeyName(items[i].0)] == SerializeTagValue(items[i].1).value
    {
      DictOfDistinct(nv, i);
    }
  }

  /**
   * The round trip of a message held in a `Message`: its bytes, as `to_bytes`
   * writes them, decode to a dict holding, under each tag's name, that tag's
   * serialized value, and to the tag count of the container.
   */
  lemma MessageRoundTrip(tag: seq<Byte>, c: Container<TagValue>)
    requires c.Valid() && |tag| == 4 && Encodable(c.Items())
    requires forall k :: k in c.Contents() ==> AsciiKey(k) && k % 256 != 0
    ensures EncodeMessage(Some(tag), c.Items()).Some?
    ensures var d := Proto.DecodeHandshakeMessage(EncodeMessage(Some(tag), c.Items()).value);
      && d.Ok? && d.value.tagCount == |c.Contents()| && |d.value.tags| == |c.Contents()|
      && forall k :: k in c.Contents() ==>
        KeyName(k) in d.value.tags && Some(d.value.tags[KeyName(k)]) == SerializeTagValue(c.Contents()[k])
  {
    var items := c.Items();
    forall i | 0 <= i < |items| ensures items[i].0 in c.Contents() && items[i].1 == c.Contents()[items[i].0] {
      DictOfDistinct(items, i);
    }
    DecodeEncodeEntries(tag, items);
    DictOfSizeDistinct(items);
    DictOfKeys(items);
  }

  /**
   * Two tag numbers that differ only by a zero low byte read back under the
   * same name: 0x41 and 0x4100 both come back as "A", so in a message holding
   * both, the later entry's value is the one the decoded dict keeps.
   */
  lemma NameCollision()
    ensures AsciiKey(0x41) && AsciiKey(0x4100)
    ensures KeyName(0x41) == "A" && KeyName(0x4100) == "A"
  {
    CollisionBytes();
    CollisionStrings();
    DecodeFour(0x41, 0, 0, 0);
    DecodeFour(0, 0x41, 0, 0);
  }

  /**
   * Tag number 0 is the one number with low byte 0 that does come back under
   * its own name: its name is the empty string, and `_int_tag_name("")` is 0.
   */
  lemma ZeroKeyName()
    ensures AsciiKey(0) && KeyName(0) == ""
    ensures IntTagName(Name(KeyName(0))) == Some(0)
  {
    Pow256Values();
    assert LeBytes(0, 1) == [0] && LeBytes(0, 2) == [0, 0] && LeBytes(0, 3) == [0, 0, 0];
    assert KeyBytes(0) == [0, 0, 0, 0];
    DecodeFour(0, 0, 0, 0);
    var s := [NUL, NUL, NUL, NUL];
    assert s[1..] == [NUL, NUL, NUL] && s[2..] == [NUL, NUL] && s[3..] == [NUL];
    assert TrimLeadingNul(s) == [];
  }

  lemma DecodeFour(c0: Byte, c1: Byte, c2: Byte, c3: Byte)
    requires c0 < 128 && c1 < 128 && c2 < 128 && c3 < 128
    ensures AsciiDecode([c0, c1, c2, c3]) == Some([c0 as char, c1 as char, c2 as char, c3 as char])
  {
    var b := [c0, c1, c2, c3];
    var s := AsciiDecode(b).value;
    assert s[0] as int == c0 && s[1] as int == c1 && s[2] as int == c2 && s[3] as int == c3;
    assert s[0] == c0 as char && s[1] == c1 as char && s[2] == c2 as char && s[3] == c3 as char;
    assert s == [c0 as char, c1 as char, c2 as char, c3 as char];
  }

  lemma CollisionBytes()
    ensures KeyBytes(0x41) == [0x41, 0, 0, 0] && KeyBytes(0x4100) == [0, 0x41, 0, 0]
  {
    Pow256Values();
    assert LeBytes(0, 1) == [0] && LeBytes(0, 2) == [0, 0] && LeBytes(0, 3) == [0, 0, 0];
    assert LeBytes(0x41, 3) == [0x41, 0, 0];
  }

  lemma CollisionStrings()
    ensures StripNul("A\0\0\0") == "A" && StripNul("\0A\0\0") == "A"
  {
    StripPadded('A');
    assert TrimLeadingNul("\0A\0\0") == "A\0\0";
    assert TrimLeadingNul("A\0\0") == "A\0\0";
  }

  /** A letter followed by NULs strips to that letter. */
  lemma StripPadded(c: char)
    requires c != NUL
    ensures StripNul([c, NUL, NUL, NUL]) == [c] && TrimTrailingNul([c, NUL, NUL]) == [c]
  {
    var s := [c, NUL, NUL, NUL];
    assert TrimLeadingNul(s) == s;
    assert s[..3] == [c, NUL, NUL] && [c, NUL, NUL][..2] == [c, NUL] && [c, NUL][..1] == [c];
    assert TrimTrailingNul([c]) == [c];
    assert TrimTrailingNul([c, NUL]) == [c];
    assert TrimTrailingNul([c, NUL, NUL]) == [c];
    assert TrimTrailingNul(s) == [c];
  }
}
