# mp3_decoder in Dafny

A model of the core of `mp3_decoder`, a small library that decodes MPEG audio
frame headers and ID3v2 tags from byte buffers. The library is built on a
generic, declarative binary-decoding engine. The model follows its structure:

- `common.dfy` (`Common`): bytes, the failure kinds, `Result`/`Option`, the
  decode-log entry and Python-style clamped slicing.
- `arith.dfy` (`Arith`): shifts, masks, powers of two and the division facts
  the bit reader needs. All of these work on unbounded naturals, as Python's
  integers do.
- `bits.dfy` (`BitView`): `Bits`, the bit-addressable view, with its two
  constructors, `trim`, slicing, bit indexing and the byte-by-byte integer
  conversion. Also `BitsReader.get`.
- `shapes.dfy` (`Shapes`): `_product` and `_reshape`.
- `bitfield.dfy` (`Bitfield`): `Field` and `BitfieldBase`, the bit-level
  record decoder with per-field width, class, shape and offset log.
- `transformers.dfy` (`Transformers`): `MSBZeroBytes` (the synchsafe integer)
  and `EnumTransformer`.
- `binary.dfy` (`Binary`): `Item.unpack` for the struct formats in use, and
  `BinaryBase`, the byte-level record decoder with `noskip` items,
  functional items and a running-offset log.
- `mp3frame.dfy` (`Mp3Frame`): the `MP3FrameHeader` layout and its derived
  quantities, the two side-information layouts, and `MP3Frame`.
- `id3.dfy` (`Id3`): unsynchronisation, the header, extended-header and
  frame-header layouts, frame dispatch, the frame classes and `ID3v2Tag`.
- `mp3file.dfy` (`Mp3File`): `find_next_frame` and the start of `MP3File`.

Every Python exception becomes an `Err` of the `Error` datatype. An index out
of range or a short `struct` read is `TruncatedBuffer`. A `ValueError` is
whichever kind fits its cause. The metaclasses that collect declared fields
are replaced by explicit ordered lists of `Field` and `Item` values.

Behaviour of the code worth noting:

- The bit-rate table gives 80 kbit/s for MPEG-2 layer III at index 9.
- The side-information classes hold only `main_data_begin`, the private bits
  and the selection array. That is 18 bits (mono) or 20 bits (stereo), three
  bytes either way. The per-granule records are not in the code.
- `ID3v2Tag` never checks the "ID3" identifier. Only `has_id3v2` looks at it
  (`Id3.HeaderAcceptsAnyMarker`).
- `int(Bits)` fetches the byte at the view's start even for a zero-bit view.
  Such a read fails at the end of the backing bytes
  (`BitView.ReadZeroAtEnd`).
- `_reshape` with two or more dimensions ignores values past the last row.
  It only fails when a row comes up short (`Shapes.ReshapeOk`).
- The `bitrate` property fails with no table row for the reserved version
  and for MPEG-1 with the reserved layer. For MPEG-2 and 2.5, the reserved
  layer falls into row 4.

## Model

| member | source | states |
|---|---|---|
| Shapes.ProductCons | binary.py:12 | the left fold `_product` equals the first dimension times the product of the rest |
| Shapes.ProductZero | binary.py:12 | `_product` is 0 exactly when some dimension is 0 |
| Shapes.Reshape | binary.py:15-32 | an empty shape fails with its own error and every other failure is a shape mismatch; a 1-d shape succeeds iff the list has exactly its length and returns the list itself; a longer shape gives `shape[0]` rows |
| Shapes.ReshapeOk | binary.py:15-32 | `_reshape` succeeds exactly when a 1-d shape gets exactly its length, or a longer shape gets at least the product of its dimensions; an empty shape fails |
| Shapes.ReshapeShape | binary.py:27-32 | a successful reshape has `shape[0]` entries at the top, each of the remaining shape, down to flat lists of the last dimension |
| Shapes.ReshapeFlatten | binary.py:15-32 | flattening a successful reshape row-major gives back the first product-many input values, in order |
| Shapes.ReshapeRows | binary.py:28-32 | with two or more dimensions, row i is the i-th run of `_product(shape[1:])` values reshaped to `shape[1:]`; the whole succeeds iff every row does |
| Shapes.ReshapeExample | binary.py:20-21 | the docstring example: `range(12)` in shape (2,2,3) gives `[[[0,1,2],[3,4,5]],[[6,7,8],[9,10,11]]]` |
| Bitfield.MakeField | binary.py:36-43 | an int shape n becomes the 1-tuple (n,), and `n_elems` is then n; `whole_bits` is bits times `n_elems` |
| BitView.FromBytes | binary.py:57-65 | a view built from bytes starts at bit 0 and counts its size in bytes, turned into bits (unknown when absent); its backing is at most `size` bytes from `offset`, exactly `size` when the buffer holds them |
| BitView.FromBytesBits | binary.py:57-65 | bit i of a view built from bytes is bit 8·offset + i of the buffer |
| BitView.FromView | binary.py:66-69 | a view built from a view shares the backing bytes, counts offset and size in bits, and bit i of it is bit offset + i of the parent |
| BitView.Trim | binary.py:71-72 | `trim(st, ed)` is the sub-view of bits [st, ed): same backing, start moved by st, size ed − st |
| BitView.Slice | binary.py:96-100 | a slice fails with an unsupported step exactly when a step other than 1 is given; otherwise it is the trim, over the same backing bytes |
| BitView.BitAt | binary.py:101-105 | indexing bit k succeeds exactly when its byte exists in the backing, and yields 0 or 1 |
| BitView.BitOfByte | binary.py:102-105 | bit 8k + m of a byte region is `(backing[k] >> (7 - m)) & 1` |
| BitView.BitAtIsOneBitValue | binary.py:96-105 | indexing bit k agrees with converting the one-bit trim [k, k+1) to an integer, failures included |
| BitView.Value | binary.py:74-94 | conversion fails with an unknown length exactly for a negative size, fails for truncation exactly when the bytes it fetches are missing, and otherwise reads inside the backing bytes |
| BitView.IntOf | binary.py:74-94 | the byte-by-byte loop that masks and shifts each byte computes the MSB-first value of the view's bits, with the same failures |
| BitView.ValueBound | binary.py:74-94 | a conversion of n bits is below 2^n |
| BitView.FitsIffLastByteInside | binary.py:78-92 | conversion fails for truncation exactly when the last byte index it would fetch is past the backing |
| BitView.BitsValueIsSum | binary.py:74-94 | the MSB-first reading of n bits from off equals the sum of bit(off+i)·2^(n−1−i) |
| BitView.Read | binary.py:113-116 | a read of n bits yields a value below 2^n |
| BitView.Get | binary.py:113-116 | `BitsReader.get(n)` returns the integer of bits [offset, offset+n) and advances the offset by exactly n, or fails for truncation |
| BitView.ReadConcat | binary.py:113-116 | two successive reads of a then b bits combine into one read of a+b bits: the first shifted up by b plus the second, ending at the same offset |
| BitView.ReadHighLow | binary.py:113-116 | conversely, of a read of a+b bits the first a are its value shifted right by b and the next b its low b bits |
| BitView.ReadZeroAtEnd | binary.py:82 | a zero-bit read at the very end of the backing fails, since the conversion still fetches a byte |
| Bitfield.ReadMany | binary.py:143-148 | reading `n_elems` values yields that many and advances the reader by bits × `n_elems` |
| Bitfield.ReadManyElements | binary.py:143-148 | the array reads succeed iff every element i (the `bits` bits at i·bits, converted) does, and value i is element i |
| Bitfield.DecodeField | binary.py:140-155 | a decoded field advances the reader by exactly its `whole_bits` |
| Bitfield.ScalarField | binary.py:150-153 | a field of shape (1,) is one read of `bits` bits, converted by its class |
| Bitfield.ArrayField | binary.py:142-149 | an array field succeeds iff its shape is non-empty and all `n_elems` elements read; it then has the declared shape and flattens row-major to the elements in reading order |
| Bitfield.DecodeFields | binary.py:139-156 | the field loop yields one value and one log entry per field and advances the reader by the sum of `whole_bits` |
| Bitfield.DecodeFieldsOk | binary.py:139-156 | the field loop succeeds iff every field decodes at the offset where the fields before it end |
| Bitfield.DecodeFieldsValues | binary.py:139-155 | each field's value is that field decoded on its own at the offset where the fields before it end |
| Bitfield.DecodeFieldsLog | binary.py:140-154 | field i is logged with the reader offset before it and its `whole_bits` |
| Bitfield.Decode | binary.py:120-156 | a record's `bits` is the sum of `whole_bits`, its `size` is that rounded up to whole bytes, and the reader ends `bits` past where it began; it decodes iff its field loop does, and holds that loop's values and log |
| Bitfield.DecodeLog | binary.py:140-154 | in a decoded record, field i is logged at the offset where the fields before it end |
| Transformers.SynchsafeEncode | binary.py:208-213 | `MSBZeroBytes(size).encode` yields exactly `size` values, each below 128 |
| Transformers.Encode | binary.py:208-213 | the loop that collects digits least significant first and reverses them yields the base-128 digits most significant first |
| Transformers.SynchsafeDecode | binary.py:201-206 | the decoded value is 0 iff every input value is 0, and it is at least the last value |
| Transformers.DecodeBound | binary.py:201-206 | decoding n values below 128 gives a value below 2^(7n) |
| Transformers.DecodeEncode | binary.py:201-213 | decoding an encoding gives the value modulo 2^(7·size): higher digits are dropped |
| Transformers.RoundTrip | binary.py:201-213 | `decode(encode(v)) == v` for every v below 2^(7·size) |
| Transformers.EncodeDecode | binary.py:201-213 | values below 128 are recovered by encoding their decoding |
| Transformers.DecodeExample | binary.py:201-206 | the size bytes 00 00 02 01 decode to 257 |
| Transformers.EnumDecode | binary.py:190-191 | an `IntEnum` accepts exactly its members' values, an `IntFlag` any value; a refused value is an invalid-enum failure |
| Transformers.EnumRoundTrip | binary.py:190-194 | a member encodes to an integer that decodes back to it, and a decoded value encodes back to its integer |
| Binary.BigEndianBound | binary.py:231 | an n-byte big-endian integer is below 2^(8n) |
| Binary.BigEndianFixed | binary.py:231 | `>H` and `>I` read the 2 and 4 bytes at an offset as big-endian integers |
| Binary.Unpack | binary.py:230-233 | `unpack_from` fails exactly when the format's bytes run past the buffer |
| Binary.Apply | binary.py:234-237 | no transformer keeps the value; a synchsafe transformer decodes a tuple, and a byte string byte by byte; an enumeration transformer succeeds iff the class accepts the number, and then yields that number; a transformed value is a number; a wrong-type failure happens exactly for a synchsafe transformer on a number or an enumeration on a non-number, and any other failure is a refused enumeration value |
| Binary.DecodeItem | binary.py:258-262 | a fixed item consumes its format size, or nothing when `noskip`, and needs its bytes in the buffer; a functional item consumes what it reports |
| Binary.Decode | binary.py:254-266 | a record's `size` is the sum of its logged consumptions; item i is logged at the total consumed before it, and its value and consumption are those of decoding it on its own there |
| Binary.ItemsOffsets | binary.py:254-266 | the final offset is the total consumed, and each item is logged at the total consumed by the items before it |
| Binary.ItemsValues | binary.py:256-265 | each item's value and consumption are those of decoding it on its own at its logged offset |
| Binary.DecodeSize | binary.py:256-266 | a record's `size` is the sum of its logged consumptions; a `noskip` item consumes 0 and any other fixed item its format size |
| Binary.FixedLayoutSize | binary.py:256-266 | for fixed items that all advance, the size is the sum of the format sizes, whatever the buffer holds |
| Id3.RemoveUnsync | id3.py:7-8 | removing unsynchronisation never lengthens the data and keeps exactly the nonzero byte values it had |
| Id3.RemoveUnsyncLength | id3.py:7-8 | removing unsynchronisation shortens the data by the number of `FF 00` pairs found left to right, at most half its length |
| Id3.RemoveInsert | id3.py:7-8 | removing unsynchronisation undoes inserting a `00` after every `FF` |
| Id3.UnsyncExample | id3.py:7-8 | `11 FF 00 D3` reads back as `11 FF D3`; in `FF FF 00 00` only the second `FF 00` is a pair |
| Id3.HasId3v2 | id3.py:107-109 | `has_id3v2` holds iff the data has at least three bytes and they are 0x49 0x44 0x33, "ID3" |
| Id3.HeaderLayout | id3.py:17-22 | the header items decode iff there are ten bytes: identifier, two version bytes, flags and the synchsafe size of bytes 6..9; the record size is 10 |
| Id3.HeaderIsBinaryBase | id3.py:17-22 | the direct header parse is what the byte-level engine decodes with the header's items |
| Id3.HeaderSizeExample | id3.py:22 | size bytes 00 00 02 01 announce 257 bytes of content, so the tag spans 267 bytes |
| Id3.ExtHeaderLayout | id3.py:29-32 | the extended header decodes iff there are ten bytes: big-endian 32-bit size, 16-bit flags, 32-bit padding size |
| Id3.ExtHeaderIsBinaryBase | id3.py:29-32 | the direct extended-header parse is what the byte-level engine decodes with its items |
| Id3.FrameHeaderLayout | id3.py:44-47 | a frame header decodes iff there are ten bytes: 4-byte identifier, big-endian 32-bit data size, 16-bit flags |
| Id3.FrameHeaderIsBinaryBase | id3.py:44-47 | the direct frame-header parse is what the byte-level engine decodes with its items |
| Id3.FrameHeaderAtIsParse | id3.py:137 | reading a frame header in place at an offset is parsing the content from that offset |
| Id3.IndexOfNul | id3.py:59 | `index(b'\0')` finds the first NUL, and finds nothing exactly when there is none |
| Id3.MakeFrame | id3.py:50-87 | a frame built by any class keeps the whole body as its raw bytes; the raw class always succeeds with a `RawFrame` of the body, and a successful frame is a unique file identifier or a text frame exactly when that class was chosen |
| Id3.UfidSplit | id3.py:56-61 | a UFID frame succeeds iff its body holds a NUL; then owner ++ [0] ++ id is the body and the owner holds no NUL |
| Id3.TextSplit | id3.py:84-87 | a text frame succeeds iff its first byte is an encoding below 4; an empty body and a larger byte fail |
| Id3.KindFor | id3.py:91-103 | "UFID" gives the UFID class, other identifiers starting with "T" except "TXXX" the text class, everything else the raw class |
| Id3.ReadFrame | id3.py:137-139 | one frame needs its ten header bytes, and succeeds iff its class accepts the body; the frame is the class chosen by the identifier applied to the body |
| Id3.FrameBody | id3.py:139 | a frame body is the `data_size` bytes after its header, cut short where the content ends |
| Id3.ExtendedPart | id3.py:124-131 | the extended header is parsed iff flag bit 6 is set; the CRC is read iff bit 15 of its flags is set, kept as the integer inside the code's one-element tuple; the extended header is the ten-byte parse at the start of the content and the CRC the big-endian 32 bits at byte 10; frames then start at 0, 10 or 14 |
| Id3.ParseFrames | id3.py:133-141 | the first frame the loop finds is at the offset it starts from; the chaining, the stop condition and each entry's contents are stated by `Id3.FramesStep`, `Id3.FramesChain` and `Id3.FramesRead` |
| Id3.FramesStep | id3.py:133-141 | a turn of the frame loop appends the frame at the offset and continues 10 + `data_size` bytes further |
| Id3.FramesChain | id3.py:133-141 | frames follow each other in wire order, each 10 + `data_size` after the one before, and the loop ends at the end of the content or at a NUL |
| Id3.FramesRead | id3.py:134-141 | every frame starts inside the content on a byte other than NUL and is the frame read at its offset |
| Id3.ParseTag | id3.py:111-122 | a decoded tag needs its ten header bytes, its `size` is 10 + `tagsize`, its header is the header parse of the data and its content is the header's content; `Id3.TagSteps`, `Id3.TagExtended`, `Id3.TagChain` and `Id3.TagFrames` state the rest |
| Id3.TagSteps | id3.py:111-141 | a tag decodes iff its header, the extended-header step on its content and the frame loop from where that step leaves off all succeed, and it then holds that step's extended header and CRC and that loop's entries |
| Id3.TagExtended | id3.py:124-131 | a decoded tag has an extended header iff flag bit 6 is set, and it is the ten bytes at the start of the content; it has a CRC iff bit 15 of the extended flags is set, and it is the big-endian 32 bits at byte 10 |
| Id3.TagChain | id3.py:133-141 | a tag's frames start at 0, 10 or 14 after the extended header and CRC, none when the content ends or a NUL stands there, each next one ten header bytes plus `data_size` on, and the loop stops at the end of the content or a NUL |
| Id3.TagContent | id3.py:118-122 | the content is the data after the header up to `tagsize` bytes, with unsynchronisation removed iff flag bit 7 is set |
| Id3.TagContentSize | id3.py:118-122 | the content is never longer than `tagsize` |
| Id3.TagFrames | id3.py:133-141 | each frame of a tag starts on a non-NUL byte, has the header read at its offset, and is the class its identifier selects applied to the body after that header |
| Id3.HeaderAcceptsAnyMarker | id3.py:111-113 | the tag parse does not check the "ID3" identifier: ten zero bytes give an empty tag |
| Mp3Frame.HeaderFieldsDeclared | mp3frame.py:37-50 | the header layout is the thirteen declared fields built with `Field(bits, klass)`, in declaration order |
| Mp3Frame.HeaderWidth | mp3frame.py:37-50 | the thirteen header fields span 32 bits |
| Mp3Frame.DecodeHeader | mp3frame.py:37-50 | a header decodes iff there are four bytes, and its size is 4 |
| Mp3Frame.HeaderIsBitfield | mp3frame.py:37-50 | the direct header decode is what the bit-level engine decodes with the declared fields: same success, size and field values |
| Mp3Frame.HeaderFieldEach | mp3frame.py:37-50 | each header field is the bits at its declaration-order offset, e.g. `bitrate_index` at bits 16..19 |
| Mp3Frame.HasFrameSync | mp3frame.py:52-54 | a first byte other than FF is no sync; a missing byte is an index failure |
| Mp3Frame.FrameSyncIsField | mp3frame.py:38 | on a whole header, `has_frame_sync` holds iff the 11-bit `frame_sync` field is 0x7FF |
| Mp3Frame.TopThreeBits | mp3frame.py:54 | `(b >> 5) & 7` is the top three bits of b, and equals 7 iff b ≥ 0xE0 |
| Mp3Frame.BitrateRow | mp3frame.py:59-72 | MPEG-1 layers I/II/III take rows 0/1/2, MPEG-2 and 2.5 take row 3 for layer I and 4 otherwise, and no row is chosen for the reserved version or MPEG-1's reserved layer |
| Mp3Frame.Bitrate | mp3frame.py:56-73 | index 15 fails, a missing row fails, and otherwise the bit rate is the table entry at the row and index |
| Mp3Frame.BitrateTableShape | mp3frame.py:28-34 | each row has 15 entries, starts at 0, strictly increases and holds multiples of 8 up to 448 |
| Mp3Frame.BitrateMonotone | mp3frame.py:56-73 | for one version and layer, a higher index is a higher bit rate |
| Mp3Frame.BitrateExamples | mp3frame.py:28-73 | MPEG-1 layer III index 9 is 128, MPEG-2 layer III index 9 is 80, MPEG-1 layer I index 14 is 448, the reserved version has no row |
| Mp3Frame.SampleRate | mp3frame.py:75-84 | index 3 fails; otherwise the rate is the base rate 44100/48000/32000 at that index for MPEG-1 and the reserved version, exactly half of it for MPEG-2 and a quarter for MPEG-2.5 |
| Mp3Frame.SampleRateScales | mp3frame.py:79-84 | for one index, the MPEG-1 rate is the base rate, twice the MPEG-2 rate and four times the MPEG-2.5 rate |
| Mp3Frame.FrameLength | mp3frame.py:86-91 | layer I gives 4 × (⌊12000·br/sr⌋ + padding) and other layers ⌊144000·br/sr⌋ + padding, stated by the floor's bounds; a bit-rate failure wins over a sample-rate failure |
| Mp3Frame.FrameLengthExamples | mp3frame.py:86-91 | MPEG-1 layer III at 128 kbit/s and 44100 Hz gives 417 bytes, 418 with padding |
| Mp3Frame.LayerOneExample | mp3frame.py:88-89 | MPEG-1 layer I at 32 kbit/s and 48000 Hz gives 32 bytes, 36 with padding |
| Mp3Frame.NChannels | mp3frame.py:93-95 | one channel iff the mode is single channel, else two |
| Mp3Frame.SideInfoDeclared | mp3frame.py:98-107 | a side-information layout is the three declared fields built with `Field`: 9 bits, p bits, and single bits in shape (c, 4) |
| Mp3Frame.SideInfoSizes | mp3frame.py:98-107 | the mono layout is 18 bits and the stereo one 20; each decodes iff the buffer holds three bytes, with size 3 |
| Mp3Frame.LayoutDecodeOk | mp3frame.py:98-107 | a side-information layout decodes iff the bytes it spans hold all 9 + p + 4c bits |
| Mp3Frame.LayoutDecodeValues | mp3frame.py:98-107 | `main_data_begin` and `private_bits` are the bits at 0 and 9; the selection array has shape (c, 4) and element i is bit 9 + p + i |
| Mp3Frame.LayoutDecodeLog | mp3frame.py:98-107 | the side-information log is (0, 9), (9, p), (9 + p, 4c) |
| Mp3Frame.CrcPart | mp3frame.py:118-120 | without protection nothing is read and the side information starts at the end of the header; with `protection` 0 the read succeeds iff two bytes follow the header and yields their big-endian value (the integer inside the code's one-element tuple), moving the start two bytes on |
| Mp3Frame.DecodeFrame | mp3frame.py:110-127 | a decoded frame holds the header decode of the data, a CRC iff `protection` is 0 and then the big-endian 16 bits at byte 4 (unwrapped from the code's one-element tuple), the side-information offset 6 or 4 (the bits themselves are stated by `Mp3Frame.FrameSideInfo`), and a size of that offset plus the side information's |
| Mp3Frame.FrameOffsets | mp3frame.py:110-127 | a frame decodes iff its header and the three side-information bytes are there; side information starts at byte 6 after a CRC when `protection` is 0 and at byte 4 otherwise, and the CRC is the big-endian 16 bits at byte 4 |
| Mp3Frame.FrameSideInfo | mp3frame.py:117-127 | the side information of a decoded frame is the bits of the three bytes at byte 6 when `protection` is 0 and at byte 4 otherwise: `main_data_begin` the first 9, `private_bits` the next 5 or 3, and the selection array the one-bit values after them in row-major order |
| Mp3Frame.FrameLayout | mp3frame.py:122-126 | the 18-bit mono layout, with a 1 × 4 array, is used iff the header names one channel, and the 20-bit stereo one, with a 2 × 4 array, otherwise |
| Mp3File.FindNextFrame | mp3file.py:7-16 | the result is the least position p ≥ offset with `buf[p] == 0xFF` and the top three bits of `buf[p+1]` set, with p < len − 1; nothing is returned iff no such position exists |
| Mp3File.SyncAt | mp3file.py:14 | the scanner's test at p holds iff p + 1 is inside the buffer, `buf[p]` is FF and the top three bits of `buf[p+1]` are all set |
| Mp3File.SyncAtIsFrameSync | mp3file.py:14 | the scanner's test at p is `has_frame_sync` on the bytes from p, and on a whole header the `frame_sync` field being 0x7FF |
| Mp3File.OpenFile | mp3file.py:19-26 | the scan starts at the tag's `size` (10 + `tagsize`) when the data begins with "ID3", and at 0 otherwise; a failing tag fails the file |

## Left out

- Metaclass field collection (`BitsMeta`, `BinaryMeta`) is left out. Fields and items are explicit ordered lists.
- `Item.pack`, `TransformerBase` and the `dbg` printers are left out. They are a thin `struct` wrapper, an abstract base and console output.
- Python's `struct` module is modelled only for the formats the decoders use (`3s`, `4s`, `B`, `4B`, `>H`, `>I`).
- Text decoding in `TextFrame` is left out, because it calls Python codecs. The model keeps the encoding byte and the raw bytes after it. The decoded text, the dropped terminator and a codec's own decode errors are not modelled.
- `klass` values that are nested structures are not modelled. No field in the code uses one; classes are `bool` or integer enumerations.
- `IntEnum`/`IntFlag` are modelled as a set of accepted values and as "any value". Their member objects are plain integers.
- Floating point in `sample_rate` and `frame_length` is modelled with exact integer division. Every division there is exact or truncates a positive value.
- Python's negative indices, `None` slice bounds and non-integer keys for `Bits` are not modelled. Offsets, sizes and indices are naturals; only the view's size may be negative ("unknown").
- Anything after the first frame is out of scope, because the code has none of it: per-granule side information, scale-factor tables, CRC checking, Huffman main data and iteration over further frames.
- Mp3Frame.CrcPart: the code keeps `crc` as the one-element tuple that `struct.unpack_from('>H', …)` returns, because the singleton unwrap of `Item.unpack` is not on this path. The model keeps the integer inside it, and so do `Mp3Frame.DecodeFrame` and `Mp3Frame.FrameOffsets`.
- Id3.ExtendedPart: the code keeps `total_frame_crc` as the one-element tuple that `struct.unpack_from('>I', …)` returns. The model keeps the integer inside it, and so does `Id3.ParseTag`.
- Mp3Frame.Frame: `sideInfoOffset` and `size` exist only in the model. They are the constructor's local `offset` before and after the side information. Likewise `Id3.Tag`'s `content` is the constructor's local `content`, and `Mp3File.File`'s `firstFrame` is the local `offset` that `MP3File.__init__` finds and does not keep.
- Mp3Frame.HasFrameSync: its contract states only the failure cases and the non-FF case. The sync case itself is stated by `Mp3Frame.FrameSyncIsField` and `Mp3File.SyncAtIsFrameSync`.
