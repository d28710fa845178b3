/**
 * The handshake message decoder of quic/proto.py.
 *
 * Its helpers (`tag_at`, `tag_value_at`, `int32_little_endian`,
 * `tag_positions`) are the same text as those of quic/handshake.py and are
 * the functions of module Handshake here. Its decoder runs the same pipeline
 * as `handshake.decode_handshake_message` and also keeps the tag count read
 * from the header. It is written below entry by entry (entry i is named by
 * the 4 bytes at 8 + 8i and holds the bytes between value boundaries i and
 * i + 1) and proved equal to the pipeline; the round trip through
 * `Message.to_bytes` is stated in module RoundTrip on this form.
 */
module Proto {

  import opened Wrappers
  import opened Bytes
  import opened Seqs
  import Handshake

  /** `proto.HandshakeMessage`: the message tag, the tag count of the header and the named values. */
  datatype HandshakeMessage = HandshakeMessage(tag: seq<Byte>, tagCount: nat, tags: map<string, seq<Byte>>)

  /**
   * Value boundary i, for i = 0 .. tagCount: the values start, then for i > 0
   * the values start plus the end offset in entry i - 1 (the u32 at 12 + 8(i - 1)).
   */
  function Boundary(raw: seq<Byte>, tagCount: nat, i: nat): nat
  {
    Handshake.ValuesOffsetFor(tagCount) + if i == 0 then 0 else Handshake.Int32LittleEndian(4 + 8 * i, raw)
  }

  /** The name of entry i: the tag at 8 + 8i; None where it is not ASCII. */
  function NameAt(raw: seq<Byte>, i: nat): Option<string>
  {
    Handshake.TagAt(8 + 8 * i, raw)
  }

  /** The value of entry i: the bytes between boundaries i and i + 1. */
  function ValueAt(raw: seq<Byte>, tagCount: nat, i: nat): seq<Byte>
  {
    Handshake.TagValueAt((Boundary(raw, tagCount, i), Boundary(raw, tagCount, i + 1)), raw)
  }

  /** The tag count of the header, `(raw[5] << 8) | raw[4]`. */
  function TagCount(raw: seq<Byte>): (r: nat)
    requires |raw| >= 6
    ensures r == raw[4] as nat + 256 * raw[5] as nat && r < 0x1_0000
  {
    LeValueTwo(raw[4], raw[5]);
    Handshake.ShiftOr(raw[5], raw[4])
  }

  /** Every one of the tagCount names is ASCII. */
  predicate NamesAscii(raw: seq<Byte>, tagCount: nat)
  {
    forall i :: 0 <= i < tagCount ==> NameAt(raw, i).Some?
  }

  /** The (name, value) pairs `.dict()` receives, in entry order. */
  function Entries(raw: seq<Byte>, tagCount: nat): (r: seq<(string, seq<Byte>)>)
    requires NamesAscii(raw, tagCount)
    ensures |r| == tagCount
  {
    seq(tagCount, i requires 0 <= i < tagCount => (NameAt(raw, i).value, ValueAt(raw, tagCount, i)))
  }

  /**
   * `proto.decode_handshake_message`: IndexError on a buffer too short for the
   * tag count, UnicodeDecodeError when a name is not ASCII, otherwise the tag,
   * the count and the dict of the entries (a later entry of the same name wins).
   */
  function DecodeHandshakeMessage(raw: seq<Byte>): (r: Result<HandshakeMessage, Handshake.DecodeError>)
    ensures r == Err(Handshake.IndexError) <==> |raw| < 6
    ensures r == Err(Handshake.UnicodeDecodeError) <==>
      |raw| >= 6 && !NamesAscii(raw, TagCount(raw))
    ensures r.Ok? ==>
      && r.value.tag == Slice(raw, 0, 4)
      && r.value.tagCount == TagCount(raw)
      && |r.value.tags| <= r.value.tagCount
  {
    if |raw| < 6 then Err(Handshake.IndexError)
    else
      var tagCount := TagCount(raw);
      if NamesAscii(raw, tagCount) then
        DictOfSize(Entries(raw, tagCount));
        Ok(HandshakeMessage(Slice(raw, 0, 4), tagCount, DictOf(Entries(raw, tagCount))))
      else Err(Handshake.UnicodeDecodeError)
  }

  lemma LeValueTwo(lo: Byte, hi: Byte)
    ensures LeValue([lo, hi]) == lo + 256 * hi
  {
    assert [lo, hi][1..] == [hi] && [hi][1..] == [];
    assert LeValue([hi]) == hi;
  }

  /** Every entry's name is a key of the decoded dict, and there are no other keys. */
  lemma DecodedKeys(raw: seq<Byte>)
    requires |raw| >= 6 && NamesAscii(raw, TagCount(raw))
    ensures DecodeHandshakeMessage(raw).Ok?
    ensures var m := DecodeHandshakeMessage(raw).value;
      forall name :: name in m.tags <==> exists i :: 0 <= i < m.tagCount && NameAt(raw, i) == Some(name)
  {
    var n := TagCount(raw);
    DictOfKeys(Entries(raw, n));
    forall name ensures name in KeySet(Entries(raw, n)) <==> exists i :: 0 <= i < n && NameAt(raw, i) == Some(name) {
      EntryName(raw, n, name);
    }
  }

  lemma EntryName(raw: seq<Byte>, n: nat, name: string)
    requires NamesAscii(raw, n)
    ensures name in KeySet(Entries(raw, n)) <==> exists i :: 0 <= i < n && NameAt(raw, i) == Some(name)
  {
    var es := Entries(raw, n);
    if name in KeySet(es) {
      var i :| 0 <= i < |es| && es[i].0 == name;
      assert NameAt(raw, i) == Some(name);
    }
    if exists i :: 0 <= i < n && NameAt(raw, i) == Some(name) {
      var i :| 0 <= i < n && NameAt(raw, i) == Some(name);
      assert es[i].0 == name;
    }
  }

  /** An entry whose name no later entry repeats keeps its own value in the dict. */
  lemma LaterDuplicateWins(raw: seq<Byte>, i: nat)
    requires |raw| >= 6 && NamesAscii(raw, TagCount(raw)) && i < TagCount(raw)
    requires forall j :: i < j < TagCount(raw) ==> NameAt(raw, j) != NameAt(raw, i)
    ensures DecodeHandshakeMessage(raw).Ok?
    ensures var m := DecodeHandshakeMessage(raw).value;
      NameAt(raw, i).Some? && NameAt(raw, i).value in m.tags && m.tags[NameAt(raw, i).value] == ValueAt(raw, m.tagCount, i)
  {
    var m := DecodeHandshakeMessage(raw).value;
    var es := Entries(raw, m.tagCount);
    forall j | i < j < |es| ensures es[j].0 != es[i].0 {
      assert NameAt(raw, j) != NameAt(raw, i);
    }
    DictOfLastWins(es, i);
  }

  /** The value positions of the pipeline are the boundaries 0 .. tagCount. */
  lemma ValuePositionsAreBoundaries(raw: seq<Byte>, tagCount: nat)
    ensures var vp := Handshake.ValuePositions(tagCount, raw);
      |vp| == tagCount + 1 && forall i :: 0 <= i <= tagCount ==> vp[i] == Boundary(raw, tagCount, i)
  {
    var vp := Handshake.ValuePositions(tagCount, raw);
    forall i | 0 < i <= tagCount ensures vp[i] == Boundary(raw, tagCount, i) {
      assert Handshake.TagPositions(tagCount)[i - 1] + 4 == 4 + 8 * i;
    }
  }

  /** The pairs the pipeline hands to `.dict()` are the entries. */
  lemma PipelinePairs(raw: seq<Byte>, tagCount: nat)
    requires NamesAscii(raw, tagCount)
    ensures var vp := Handshake.ValuePositions(tagCount, raw);
      var names := MapSeq((pos: nat) => Handshake.TagAt(pos, raw), Handshake.TagPositions(tagCount));
      var values := MapSeq((se: (nat, nat)) => Handshake.TagValueAt(se, raw), Zip(vp, Drop1(vp)));
      AllSome(names).Some? && Zip(AllSome(names).value, values) == Entries(raw, tagCount)
  {
    var vp := Handshake.ValuePositions(tagCount, raw);
    var names := MapSeq((pos: nat) => Handshake.TagAt(pos, raw), Handshake.TagPositions(tagCount));
    var values := MapSeq((se: (nat, nat)) => Handshake.TagValueAt(se, raw), Zip(vp, Drop1(vp)));
    ValuePositionsAreBoundaries(raw, tagCount);
    ValuesAreEntries(raw, tagCount, vp);
    NamesAreEntries(raw, tagCount);
    ZipIsEntries(raw, tagCount, AllSome(names).value, values);
  }

  /** The names the pipeline reads at the tag positions are the entries' names. */
  lemma NamesAreEntries(raw: seq<Byte>, tagCount: nat)
    requires NamesAscii(raw, tagCount)
    ensures var names := MapSeq((pos: nat) => Handshake.TagAt(pos, raw), Handshake.TagPositions(tagCount));
      && AllSome(names).Some? && |AllSome(names).value| == tagCount
      && forall i :: 0 <= i < tagCount ==> Some(AllSome(names).value[i]) == NameAt(raw, i)
  {
    var names := MapSeq((pos: nat) => Handshake.TagAt(pos, raw), Handshake.TagPositions(tagCount));
    assert forall i :: 0 <= i < tagCount ==> names[i] == NameAt(raw, i);
  }

  /** Values read between consecutive boundaries are the entries' values. */
  lemma ValuesAreEntries(raw: seq<Byte>, tagCount: nat, vp: seq<nat>)
    requires |vp| == tagCount + 1 && forall i :: 0 <= i <= tagCount ==> vp[i] == Boundary(raw, tagCount, i)
    ensures var values := MapSeq((se: (nat, nat)) => Handshake.TagValueAt(se, raw), Zip(vp, Drop1(vp)));
      |values| == tagCount && forall i :: 0 <= i < tagCount ==> values[i] == ValueAt(raw, tagCount, i)
  {
    forall i | 0 <= i < tagCount ensures Zip(vp, Drop1(vp))[i] == (Boundary(raw, tagCount, i), Boundary(raw, tagCount, i + 1)) {
      ZipDrop1At(vp, i);
    }
  }

  /** Names and values that match entry by entry zip to the entries. */
  lemma ZipIsEntries(raw: seq<Byte>, tagCount: nat, ns: seq<string>, values: seq<seq<Byte>>)
    requires NamesAscii(raw, tagCount) && |ns| == tagCount && |values| == tagCount
    requires forall i :: 0 <= i < tagCount ==> Some(ns[i]) == NameAt(raw, i) && values[i] == ValueAt(raw, tagCount, i)
    ensures Zip(ns, values) == Entries(raw, tagCount)
  {
  }

  /**
   * The decoders of quic/proto.py and quic/handshake.py agree: the same error,
   * or the same tag and the same dict.
   */
  lemma DecodersAgree(raw: seq<Byte>)
    ensures var h := Handshake.DecodeHandshakeMessage(raw);
      match DecodeHandshakeMessage(raw)
      case Err(e) => h == Err(e)
      case Ok(m) => h == Ok(Handshake.DecodedMessage(m.tag, m.tags))
  {
    if |raw| >= 6 {
      var tagCount := TagCount(raw);
      var names := MapSeq((pos: nat) => Handshake.TagAt(pos, raw), Handshake.TagPositions(tagCount));
      if NamesAscii(raw, tagCount) {
        PipelinePairs(raw, tagCount);
      } else {
        var i :| 0 <= i < tagCount && NameAt(raw, i).None?;
        assert names[i].None?;
      }
    }
  }
}
