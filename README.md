# pyquic gQUIC codec, modelled in Dafny

This project models the message-level core of pyquic, a Python implementation of
Google QUIC (gQUIC Q034/Q035) crypto handshake messages and packet public
headers, and proves properties of the model:

- **Tags container** (`quic/tags.py`): a dictionary keyed by 32-bit tag
  numbers. A tag given by name (`"VER"`) is turned into its number by reading
  its ASCII bytes little-endian (`_int_tag_name`). `items()`, `keys()` and
  `values()` list the entries in ascending order of tag number, whatever the
  insertion order.
- **Handshake message encoding** (`quic/handshake.py`): `Message.to_bytes`
  writes the message tag, the tag count as a u16 with two zero bytes, one
  8-byte table entry per tag (tag number, end offset of its value) and then the
  values. The loop of `_serialize_tags` is a method proved against a
  specification of the table.
- **Handshake message decoding** (`quic/handshake.py` and `quic/proto.py`):
  `decode_handshake_message` reads the tag count, the names (ASCII with NULs
  stripped) and the values between consecutive end offsets, then builds a dict.
  In it a later entry with the same name wins. Both decoders are modelled, and
  they are proved to agree.
- **Round trip**: decoding the bytes `to_bytes` writes gives back the message
  tag, the tag count, and the dict built from each tag's name (`KeyName`) and
  serialized value in table order. When two names collide, the later tag
  wins. Names can collide only when a non-zero tag number's low byte is 0: 0x41
  and 0x4100 both read back as "A" (`RoundTrip.NameCollision`). Tag number 0
  reads back as "", which normalises to 0 again (`RoundTrip.ZeroKeyName`). For tag numbers with a
  non-zero low byte the names are distinct, and `_int_tag_name` of a name is
  the original number, so nothing is lost.
- **Packet public header** (`quic/packet.py`): the flag constants,
  `has_version`, `packet_number_length` (1, 2, 4 or 6 bytes from bits 4-5), the
  little-endian packet-number fold, and `parse_public_header`.

Modules: `Wrappers` (Option, Result), `Bytes` (bytes, little-endian integers,
Python slicing, ASCII, NUL stripping), `Seqs` (concatenation, `dict(pairs)`,
map/zip/drop), `Tags`, `Handshake`, `Proto`, `RoundTrip`, `Packet`, and
`Scenarios` (the repository's unit-test examples, stated on concrete inputs).

Python exceptions are modelled as values:

- `IndexError` and `UnicodeDecodeError` of the decoder are `Err` results.
- `OverflowError`, `TypeError` and `UnicodeEncodeError` of the encoder are `None`.
- A `data[0]` on an empty datagram is `None`.

Python slices clamp their bounds (`Bytes.Slice`) and never raise.

Two behaviours of the code that the model keeps as they are:

- `parse_public_header` reads bytes 9..13 as the version even when the version
  flag is clear (quic/packet.py:53-61).
- A non-zero tag number whose low byte is 0 does not come back under its own name,
  because `tag_at` strips NULs from both ends (quic/handshake.py:67-69).
  - `RoundTrip.DecodeEncode` states exactly what comes back for every ASCII tag
    number.
  - `RoundTrip.DecodeEncodeEntries` proves that nothing is lost when low bytes
    are non-zero.

## Model

| member | source | states |
|---|---|---|
| Bytes.LeValue | quic/handshake.py:77-79 | `int.from_bytes(s, 'little')`: the number read from k bytes is below 256^k |
| Bytes.LeBytes | quic/handshake.py:63-64 | `n.to_bytes(width, 'little')` for a value that fits: width bytes that read back as n |
| Bytes.LeBytesOfValue | quic/handshake.py:77-79 | encoding the number read from bytes gives the same bytes back |
| Bytes.Slice | quic/handshake.py:72-74 | Python's `s[i:j]`: exactly `s[i..j]` when in bounds, the tail from i when only j is past the end, empty when j <= i or i is past the end; never longer than s, never raising |
| Bytes.AsciiEncode | quic/tags.py:50-51 | `bytes(s, 'ascii')` succeeds iff every character is below 128, giving one byte per character with its code |
| Bytes.AsciiDecode | quic/handshake.py:67-69 | `str(b, 'ascii')` succeeds iff every byte is below 128, giving one character per byte |
| Bytes.AsciiDecodeEncode | quic/handshake.py:49-51 | decoding the ASCII encoding of a string gives the string back |
| Bytes.TrimLeadingNul | quic/handshake.py:69 | `lstrip('\x00')`: a suffix of the string, empty or starting with a non-NUL |
| Bytes.TrimLeadingNulPadding | quic/handshake.py:69 | what `lstrip('\x00')` removes is NULs only |
| Bytes.TrimTrailingNul | quic/handshake.py:69 | `rstrip('\x00')`: a prefix of the string, empty or ending with a non-NUL |
| Bytes.TrimTrailingNulPadding | quic/handshake.py:69 | what `rstrip('\x00')` removes is NULs only |
| Bytes.StripNul | quic/handshake.py:69 | `strip('\x00')`: no longer than the string, no NUL at either end, the string itself when it has no NUL at either end, ASCII when the string is |
| Bytes.StripNulRemovesEndNuls | quic/handshake.py:69 | `strip('\x00')` is the piece of the string left after removing only NULs, from its two ends |
| Seqs.Concat | quic/handshake.py:44-46 | `b''.join` / the `reduce` of `+`: defines the fold; `Seqs.ConcatPart` and `Seqs.ConcatAppend` state where each chunk lands |
| Seqs.MapSeq | quic/handshake.py:102-103 | `seq.map`: same length, f applied at every index |
| Seqs.Zip | quic/handshake.py:104-106 | `seq.zip`: as long as the shorter input, pairing elements index by index |
| Seqs.Drop1 | quic/handshake.py:105 | `seq.drop(1)`: one shorter (empty stays empty), element i being the input's element i+1 |
| Seqs.ZipDrop1At | quic/handshake.py:104-105 | zipping a sequence with its `drop(1)` pairs element i with element i+1 |
| Seqs.AllSome | quic/handshake.py:102-103 | the names all decode iff every element is present, and then they are the values in order |
| Seqs.ConcatPart | quic/handshake.py:44-46 | in a concatenation, chunk i lies between the lengths of the first i and first i+1 chunks |
| Seqs.ConcatUniformPart | quic/handshake.py:34-42 | chunks of a common width w: chunk i sits at w*i |
| Seqs.ConcatAppend | quic/handshake.py:45 | folding one more chunk appends it |
| Seqs.DictOf | quic/handshake.py:108 | `.dict()` of pairs: defines the map; `Seqs.DictOfKeys`, `Seqs.DictOfLastWins` and `Seqs.DictOfSize` state its keys, values and size |
| Seqs.DictOfKeys | quic/handshake.py:108 | the keys of `dict(pairs)` are exactly the keys occurring in pairs |
| Seqs.DictOfLastWins | quic/handshake.py:108 | a key's value in `dict(pairs)` is the one at its last occurrence |
| Seqs.DictOfDistinct | quic/handshake.py:108 | with distinct keys every pair is in `dict(pairs)` |
| Seqs.DictOfSize | quic/handshake.py:108 | `dict(pairs)` has at most as many entries as there are pairs |
| Seqs.DictOfSizeDistinct | quic/handshake.py:108 | with distinct keys it has exactly one entry per pair |
| Seqs.DictOfTail | quic/handshake.py:108 | dropping the first pair of distinct-keyed pairs removes exactly that key |
| Tags.IntTagName | quic/tags.py:45-52 | a number is kept; a name is accepted iff ASCII, and its number is below 256^len whose little-endian bytes are the name's ASCII codes |
| Tags.IntTagNameIdempotent | quic/tags.py:45-52 | normalising an already normalised key changes nothing |
| Tags.TagNameFits32 | quic/tags.py:6-11 | a name of at most four ASCII characters is a 32-bit tag number |
| Tags.IntTagNameExample | tests/unit/test_tags_container.py:20-24 | the name "1234" is the number 0x34333231 |
| Tags.Assign | quic/tags.py:38-39 | `__setitem__` on the underlying dict keeps keys distinct and its key set gains exactly k |
| Tags.Replace | quic/tags.py:38-39 | an existing key's entry takes the new value in its place; all other entries are untouched |
| Tags.AssignContents | quic/tags.py:38-39 | setting a key is the map update `contents[k := v]` |
| Tags.AssignAll | quic/tags.py:12-15 | setting the initial pairs in turn keeps keys distinct |
| Tags.AssignAllContents | quic/tags.py:12-15 | the constructor's contents are `dict` of the normalised initial pairs (a later pair wins) |
| Tags.DictOfAppend | quic/tags.py:38-39 | appending a new pair to the dict is a map update |
| Tags.SortByKey | quic/tags.py:17-22 | `sorted(items)`: defines the insertion sort; `Tags.SortByKeyPermutation`, `Tags.SortByKeyAscending` and `Tags.SortByKeyContents` state it is an ascending permutation |
| Tags.SortByKeyPermutation | quic/tags.py:17-22 | `sorted(items)` is a permutation of the items |
| Tags.SortByKeyAscending | quic/tags.py:17-22 | `sorted(items)` of a dict is strictly ascending by tag number |
| Tags.DictOfPermutation | quic/tags.py:17-22 | two distinct-keyed permutations describe the same dict |
| Tags.AscendingUnique | quic/tags.py:17-22 | two strictly ascending lists with the same contents are equal |
| Tags.SortIndependentOfInsertionOrder | quic/tags.py:6-11 | two insertion histories with the same contents give the same `items()` |
| Tags.SortByKeyContents | quic/tags.py:17-22 | the sorted items are ascending, as many as the entries, and hold exactly the dict's contents |
| Tags.SortInts | quic/tags.py:24-29 | `sorted(keys)`: defines the sort of the tag numbers; `Tags.SortIntsFirsts` states it is the keys of `sorted(items())` |
| Tags.InsertFirsts | quic/tags.py:24-29 | inserting an entry by key moves its key to the same place among the keys |
| Tags.SortIntsFirsts | quic/tags.py:24-29 | `sorted(keys())` equals the keys of `sorted(items())` |
| Tags.Container.constructor | quic/tags.py:12-15 | the container holds the initial pairs set one after another through `__setitem__` |
| Tags.Container.Set | quic/tags.py:38-39 | fails iff the key does not normalise (then nothing changes); otherwise contents become `old[k := value]` and a read gives value back |
| Tags.Container.Get | quic/tags.py:41-42 | found iff the key normalises and is held, and then the held value |
| Tags.Container.Items | quic/tags.py:17-22 | strictly ascending by tag number, holding exactly the contents |
| Tags.Container.Keys | quic/tags.py:24-29 | the tag numbers in ascending order, the keys of `items()` |
| Tags.Container.Values | quic/tags.py:31-36 | position i holds the value of the i-th smallest tag number |
| Handshake.SerializeTagValue | quic/handshake.py:49-55 | bytes pass through; a str is accepted iff ASCII and decodes back to itself; any other object fails, whatever its `len()`; on success the length is `len(value)` |
| Handshake.SerializeTag | quic/handshake.py:58-64 | 8 bytes (tag number, end offset) as u32 LE each, and only when both fit in 32 bits |
| Handshake.SerializeTagValues | quic/handshake.py:44-46 | succeeds iff every value serializes, giving their concatenation in order |
| Handshake.SumLenSnoc | quic/handshake.py:38-39 | the end offset grows by the length of each value appended |
| Handshake.SumLenPrefix | quic/handshake.py:38-39 | the total length of a prefix of the values is at most the total |
| Handshake.OffsetsNonDecreasing | quic/handshake.py:36-40 | end offsets never decrease, and the last is the total value length |
| Handshake.TableEntry | quic/handshake.py:38-40 | each table entry is 8 bytes holding the tag number and its value's end offset |
| Handshake.TagTable | quic/handshake.py:34-42 | the table `_serialize_tags` builds: defines it; `Handshake.TagTableLayout` states its layout and `Handshake.Message.SerializeTags` that the loop computes it |
| Handshake.TagTableLayout | quic/handshake.py:34-42 | the table is 8 bytes per tag; entry i holds tag i and end offset i |
| Handshake.TableEncodableSnoc | quic/handshake.py:38-40 | the table loop can go on exactly when the next tag and its offset fit |
| Handshake.TableEntriesPrefix | quic/handshake.py:38-40 | entries already written are unaffected by the tags after them |
| Handshake.NoLengthNotEncodable | quic/handshake.py:39 | a value without `len()` makes the table loop raise |
| Handshake.TableStep | quic/handshake.py:38-40 | one turn of the loop: the end offset grows by the value's length, and the entry extends the table exactly when it can be serialized |
| Handshake.SumLenIsLength | quic/handshake.py:44-46 | the last end offset is the length of the serialized values |
| Handshake.EncodeMessage | quic/handshake.py:29-32 | `to_bytes` for a tag and the sorted items: defines it; `Handshake.EncodeSucceedsIff` and `Handshake.EncodeLayout` state when it succeeds and what it writes |
| Handshake.EncodeSucceedsIff | quic/handshake.py:29-32 | `to_bytes` succeeds exactly for encodable entries |
| Handshake.EncodeParts | quic/handshake.py:29-32 | `to_bytes` joins tag, u16 count, two zero bytes, table and values |
| Handshake.EncodeLayout | quic/handshake.py:29-32 | the message holds the tag at 0..4, the count at 4..6, zeros at 6..8, entry i at 8+8i, the values at 8+8n; the length is 8+8n plus the total value length |
| Handshake.Message.constructor | quic/handshake.py:11-14 | a fresh message has no tag and an empty container |
| Handshake.Message.TagCount | quic/handshake.py:17-19 | `tag_count` is the number of tags held |
| Handshake.Message.ValuesOffset | quic/handshake.py:21-27 | `values_offset` is always 8 + 8·tag_count, and it is where the serialized values start in `to_bytes` |
| Handshake.Message.SerializeTags | quic/handshake.py:34-42 | the loop's bytes are the tag table of the sorted items: an entry for every value with a `len()`, of any type; it fails where the source raises |
| Handshake.Message.ToBytes | quic/handshake.py:29-32 | the bytes are the encoding of the message tag and the sorted items |
| Handshake.ShiftOr | quic/handshake.py:95 | `(hi << 8) \| lo` is the little-endian value of `[lo, hi]` |
| Handshake.TagAt | quic/handshake.py:67-69 | succeeds iff the bytes read are ASCII; the name is the (possibly short) slice `data[position:position+4]` decoded, with NULs stripped |
| Handshake.TagValueAt | quic/handshake.py:72-74 | the bytes between start and end; the tail from start when end is past the data; empty when end <= start or start is past the data |
| Handshake.Int32LittleEndian | quic/handshake.py:77-79 | the little-endian value of the (possibly short) slice `data[position:position+4]`, below 2^32; in bounds its 4-byte encoding is the bytes at the position |
| Handshake.TagPositions | quic/handshake.py:82-84 | n positions, the i-th being 8+8i |
| Handshake.ValuePositions | quic/handshake.py:97-99 | tag count + 1 positions: the values offset, then for i > 0 the values offset plus the u32 at 4+8i |
| Handshake.ValuePositionsAt | quic/handshake.py:97-99 | mapping the tag positions to their end offsets and shifting by the values offset gives the u32 at 4+8i plus the offset |
| Handshake.DecodeHandshakeMessage | quic/handshake.py:87-110 | IndexError iff fewer than 6 bytes; otherwise the tag is the first 4 bytes and there are at most tag-count entries |
| Proto.Boundary | quic/proto.py:47-50 | value boundary i: defines it; `Proto.ValuePositionsAreBoundaries` states that the pipeline's positions are these |
| Proto.NameAt | quic/proto.py:52-53 | the name of entry i, `tag_at(8+8i)`: defines it; `Proto.NamesAreEntries` states the pipeline reads these names |
| Proto.ValueAt | quic/proto.py:54-56 | the value of entry i, between boundaries i and i+1: defines it; `RoundTrip.ValueInMessage` states what it is in an encoded message |
| Proto.TagCount | quic/proto.py:45 | the tag count is `raw[4] + 256*raw[5]`, below 2^16 |
| Proto.Entries | quic/proto.py:52-58 | one (name, value) pair per tag, in table order |
| Proto.DecodeHandshakeMessage | quic/proto.py:38-60 | IndexError iff fewer than 6 bytes; UnicodeDecodeError iff a name is not ASCII; otherwise tag, count, and at most count entries |
| Proto.DecodedKeys | quic/proto.py:52-58 | the decoded keys are exactly the names of the entries |
| Proto.EntryName | quic/proto.py:52-53 | a name is a key of the pairs iff some entry carries it |
| Proto.LaterDuplicateWins | quic/proto.py:52-58 | an entry no later entry renames keeps its own value in the dict |
| Proto.ValuePositionsAreBoundaries | quic/proto.py:47-50 | the value positions are the values start and then the start plus each end offset |
| Proto.ValuesAreEntries | quic/proto.py:54-56 | the values read between consecutive positions are the entries' values |
| Proto.NamesAreEntries | quic/proto.py:52-53 | the names read at the tag positions all decode and are the entries' names |
| Proto.ZipIsEntries | quic/proto.py:52-57 | names and values matching entry by entry zip to the entries |
| Proto.PipelinePairs | quic/proto.py:52-58 | the map/zip pipeline hands `.dict()` exactly the entries |
| Proto.DecodersAgree | quic/proto.py:38-60 | the proto.py and handshake.py decoders give the same error or the same tag and dict |
| RoundTrip.KeyBytes | quic/handshake.py:63 | a tag number as 4 bytes reading back to it, low byte first |
| RoundTrip.KeyName | quic/handshake.py:67-69 | the name read back for a tag number is ASCII, at most 4 long, and normalises to the number when its low byte is non-zero |
| RoundTrip.KeyNameNumber | quic/tags.py:45-52 | `_int_tag_name` of a right-stripped ASCII name is the number of its bytes |
| RoundTrip.LeValueZeroSuffix | quic/handshake.py:69 | NUL bytes at the high end do not change the tag number |
| RoundTrip.KeyNameInjective | quic/handshake.py:67-69 | distinct tag numbers with non-zero low bytes have distinct names |
| RoundTrip.NameCollision | quic/handshake.py:67-69 | 0x41 and 0x4100 are both ASCII tag numbers and both read back as "A" |
| RoundTrip.ZeroKeyName | quic/handshake.py:67-69 | tag number 0 reads back as "", and `_int_tag_name("")` is 0 again |
| RoundTrip.EncodedIsLaid | quic/handshake.py:29-42 | the encoded message has the layout the decoder reads |
| RoundTrip.NameInMessage | quic/proto.py:52-53 | entry i of an encoded message decodes iff its number is ASCII, to its name |
| RoundTrip.NameOfNumber | quic/handshake.py:67-69 | `tag_at` on a u32 holding a tag number gives its name iff its bytes are ASCII |
| RoundTrip.BoundaryInMessage | quic/proto.py:47-50 | value boundary i of an encoded message is the values start plus the length of values 0..i-1 |
| RoundTrip.ValueInMessage | quic/proto.py:54-56 | the value read for entry i of an encoded message is its serialized value |
| RoundTrip.ValueBetweenBoundaries | quic/proto.py:54-56 | from the end offsets around value i and the values section, the value read is its serialized value |
| RoundTrip.ValuesPartAt | quic/handshake.py:44-46 | value i lies between end offsets i-1 and i of the values section |
| RoundTrip.ValuesPrefixLength | quic/handshake.py:38-39 | the first i serialized values are the end offset of entry i-1 long |
| RoundTrip.DecodeEncode | quic/proto.py:38-60 | decoding `to_bytes` gives the tag, the count, and the dict from names to serialized values |
| RoundTrip.DecodeLaid | quic/proto.py:38-60 | any buffer laid out as an encoding decodes to that result |
| RoundTrip.CountInMessage | quic/proto.py:45 | the count read from an encoded message is the number of tags |
| RoundTrip.DecodeEncodeNonAscii | quic/proto.py:52-53 | a tag number with a non-ASCII byte makes decoding its encoding raise UnicodeDecodeError |
| RoundTrip.DecodeEncodeEntries | quic/proto.py:52-58 | for distinct numbers with non-zero low bytes, one decoded entry per tag holding its value |
| RoundTrip.MessageRoundTrip | quic/handshake.py:29-32 | a container's message decodes to one entry per held tag, under its name, with its serialized value |
| Packet.HasVersion | quic/packet.py:29-32 | the version flag is set iff bit 0 of the flags is 1 |
| Packet.PacketNumberCode | quic/packet.py:40 | bits 4-5 of the flags, a code below 4 |
| Packet.PacketNumberLength | quic/packet.py:34-43 | 1, 2, 4 or 6 bytes as bits 4-5 of the flags select, nothing else mattering |
| Packet.PacketNumberLengths | quic/packet.py:10-13 | the four packet-number flags select 1, 2, 4 and 6 bytes |
| Packet.ShiftIn | quic/packet.py:49 | `(nr << 8) \| byte`: the byte is the low 8 bits and nr the rest |
| Packet.FoldShiftIn | quic/packet.py:49-50 | the `reduce`: the start value ends up above the folded bytes, between acc*256^k and (acc+1)*256^k |
| Packet.Reversed | quic/packet.py:50 | `reversed`: same length, element i is the input's element k-1-i |
| Packet.FoldShiftInSnoc | quic/packet.py:49-50 | folding one more byte shifts the number so far up by a byte |
| Packet.FoldReversedIsLe | quic/packet.py:49-50 | the fold over the reversed bytes reads them little-endian |
| Packet.ParsePacketNumber | quic/packet.py:46-50 | the bytes at offset..offset+n, clamped to the data, read little-endian, below 256^n |
| Packet.ParsePacketNumberExample | tests/unit/test_quic_packet_parser.py:50-57 | flags 0x18 give a 2-byte packet number 0x1234 |
| Packet.PublicHeader.constructor | quic/packet.py:19-27 | flags 0x0d (version, 8-byte id, nonce, 1-byte number), empty id, version Q035, no nonces, number 0 |
| Packet.ParsePublicHeader | quic/packet.py:53-61 | fails iff the datagram is empty; otherwise flags, id 1..9, version 9..13 and the packet number at 13 as wide as the flags say |
| Scenarios.TagAtReadsName | tests/unit/test_message_parsing.py:7-10 | `tag_at(4, b'....MSPC...')` is 'MSPC' |
| Scenarios.TagAtStripsNul | tests/unit/test_message_parsing.py:13-16 | a trailing NUL is stripped: 'VER' |
| Scenarios.Int32Example | tests/unit/test_message_parsing.py:19-22 | the bytes 01 02 03 04 read as 0x04030201 |
| Scenarios.TagPositionsExample | tests/unit/test_message_parsing.py:30-33 | `tag_positions(3)` is [8, 16, 24] |
| Scenarios.OneLetterNames | tests/unit/test_tags_container.py:27-35 | one-letter names are their ASCII codes |
| Scenarios.SortedViewsScenario | tests/unit/test_tags_container.py:48-57 | after setting V, P, A the keys are [0x41, 0x50, 0x56] and the values follow them |
| Scenarios.SortedOfThree | tests/unit/test_tags_container.py:27-35 | the only ascending listing of those contents |
| Scenarios.ConstructorScenario | tests/unit/test_tags_container.py:59-65 | `Container({'1': ..., '2': ...}).items()` is [(0x31, 'value1'), (0x32, 'value2')] |
| Scenarios.ChloWithSni | tests/unit/test_handshake_message.py:32-51 | a CHLO with SNI 'www.example.com' encodes as tag, count 1, `SNI\0`, offset 15, then the value |
| Scenarios.OneEntryLayout | quic/handshake.py:29-42 | a one-tag message: header with count 1, one entry (key, value length), then the value |
| Scenarios.OneEntryMessage | quic/handshake.py:29-32 | the parts `to_bytes` joins for a one-tag message |
| Scenarios.SingleTable | quic/handshake.py:34-42 | the table of a one-tag message is that tag's entry |
| Scenarios.SingleValues | quic/handshake.py:44-46 | the values section of a one-tag message is its value |
| Scenarios.TableOfUnsupported | quic/handshake.py:34-46 | a value of another type with a length gets its table entry, one without fails the table, and either way `to_bytes` fails |

## Left out

- `read_packet` (quic/handshake.py:113-119, quic/proto.py:63-69): file I/O.
- quic/chlo.py is not part of this model.
- `Parser`, `bytes_excluded`, `StreamFrameHeader` and the packet-hash parsing of quic/packet.py are not part of this model.
- The integration tests read fixtures from disk; they are not part of this model.
- Class-level shared defaults (`Message.tags` is one `OrderedDict` shared by every instance until reassigned) are not modelled. Each `Message` owns a fresh container.
- Handshake.Message: `tags` is a tags `Container`, so `to_bytes` sees the entries in ascending tag order. A plain dict or `OrderedDict` assigned to `tags`, iterated in insertion order, is not modelled.
- Tags.Container.constructor: requires every initial key to normalise. The source raises part-way through the loop, after setting the earlier keys.
- Tags.Container: the other `dict` methods (`len`, `in`, `del`, `update`, equality) are not modelled. `values()` returns a lazy `map` in the source and a sequence here.
- Packet.HasVersion: `public_flags` is modelled as a byte. An arbitrary Python int assigned to it is not.
- Packet.PacketNumberLength: stated for a flags byte, as for `HasVersion`.
- Packet.ParsePacketNumber: offsets are non-negative. Python's negative slice indices are not modelled.
- Packet.ShiftIn: models `(nr << 8) | byte` as `nr * 256 + byte`. The two are equal because the low 8 bits of `nr << 8` are zero and a byte is below 256.
- Packet.ParsePublicHeader: diversification nonces are not parsed (the source does not parse them either).
- RoundTrip.DecodeEncode: holds for tag numbers whose four bytes are ASCII. Other numbers make decoding raise (`RoundTrip.DecodeEncodeNonAscii`).
- RoundTrip.DecodeEncodeEntries: stated for distinct tag numbers with a non-zero low byte. A non-zero number with low byte 0 decodes under a name whose leading NULs were stripped, and may collide with another tag's name (`RoundTrip.NameCollision`).
- Tags.IntTagName: keys other than `str` and `int` (a `bytes` key, say), which `_int_tag_name` returns unchanged, are not modelled; tag keys are names or numbers.
