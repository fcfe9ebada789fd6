/** The ID3v2 tag at the start of a file: the 10-byte header with its
    synchsafe size, unsynchronisation (section 5 of the ID3v2.3.0 informal
    standard), the optional extended header, and the loop over frames up to
    the padding, each frame dispatched on its identifier. */
module Id3 {
  import opened Common
  import opened Arith
  import opened Transformers
  import opened Binary

  /** `decode_unsynchronization`: every `FF 00` pair, taken left to right
      without overlap, becomes `FF`. */
  function RemoveUnsync(s: seq<Byte>): (r: seq<Byte>)
    ensures |r| <= |s|
    ensures forall b :: b != 0 ==> (b in r <==> b in s)
    decreases |s|
  {
    if |s| < 2 then s
    else if s[0] == 0xFF && s[1] == 0 then [0xFF] + RemoveUnsync(s[2..])
    else [s[0]] + RemoveUnsync(s[1..])
  }

  /** How many `FF 00` pairs the left-to-right replacement finds. */
  function CountPairs(s: seq<Byte>): nat
    decreases |s|
  {
    if |s| < 2 then 0
    else if s[0] == 0xFF && s[1] == 0 then 1 + CountPairs(s[2..])
    else CountPairs(s[1..])
  }

  /** The writer's side of unsynchronisation: a `00` after every `FF`. */
  function InsertUnsync(s: seq<Byte>): seq<Byte>
    decreases |s|
  {
    if |s| == 0 then []
    else if s[0] == 0xFF then [0xFF, 0] + InsertUnsync(s[1..])
    else [s[0]] + InsertUnsync(s[1..])
  }

  /** Each replaced pair shortens the buffer by one byte. */
  lemma {:induction false} RemoveUnsyncLength(s: seq<Byte>)
    ensures |RemoveUnsync(s)| == |s| - CountPairs(s)
    ensures CountPairs(s) <= |s| / 2
    decreases |s|
  {
    if |s| >= 2 {
      if s[0] == 0xFF && s[1] == 0 {
        RemoveUnsyncLength(s[2..]);
      } else {
        RemoveUnsyncLength(s[1..]);
      }
    }
  }

  /** Removing unsynchronisation undoes inserting it. */
  lemma {:induction false} RemoveInsert(s: seq<Byte>)
    ensures RemoveUnsync(InsertUnsync(s)) == s
    decreases |s|
  {
    if |s| > 0 {
      RemoveInsert(s[1..]);
      var rest := InsertUnsync(s[1..]);
      if s[0] == 0xFF {
        assert ([0xFF, 0] + rest)[2..] == rest;
      } else if |rest| == 0 {
        assert s == [s[0]];
      } else {
        assert ([s[0]] + rest)[1..] == rest;
      }
    }
  }

  /** The bytes "ID3". */
  const Id3Magic: seq<Byte> := [0x49, 0x44, 0x33]

  predicate StartsWith(s: seq<Byte>, prefix: seq<Byte>)
  {
    |prefix| <= |s| && s[..|prefix|] == prefix
  }

  /** `ID3v2Tag.has_id3v2`: the data begins with "ID3"; only the first
      three bytes are looked at. */
  function HasId3v2(data: seq<Byte>): (r: bool)
    ensures r <==> |data| >= 3 && data[0] == 0x49 && data[1] == 0x44 && data[2] == 0x33
  {
    assert |data| >= 3 && data[0] == 0x49 && data[1] == 0x44 && data[2] == 0x33 ==> data[..3] == Id3Magic;
    StartsWith(data, Id3Magic)
  }

  /** The layouts, item by item. */
  const HeaderItems: seq<Item> := [
    Fixed(Str(3), NoTransform, false),        // identifier
    Fixed(UByte, NoTransform, false),         // major_ver
    Fixed(UByte, NoTransform, false),         // minor_ver
    Fixed(UByte, EnumT(IntFlag), false),      // flag
    Fixed(UBytes(4), Synchsafe(4), false)     // tagsize
  ]

  const ExtHeaderItems: seq<Item> := [
    Fixed(BE32, NoTransform, false),          // extended_header_size
    Fixed(BE16, NoTransform, false),          // extended_flag
    Fixed(BE32, NoTransform, false)           // padding_size
  ]

  const FrameHeaderItems: seq<Item> := [
    Fixed(Str(4), NoTransform, false),        // frame_id
    Fixed(BE32, NoTransform, false),          // data_size
    Fixed(BE16, EnumT(IntFlag), false)        // flags
  ]

  /** The attribute an item value is read back as. */
  function BytesOf(u: Unpacked): seq<Byte>
  {
    if u.Raw? then u.bytes else []
  }

  function NumOf(u: Unpacked): nat
  {
    if u.Num? then u.n else 0
  }

  datatype Header = Header(identifier: seq<Byte>, majorVer: nat, minorVer: nat, flag: nat, tagsize: nat, size: nat)

  /** `ID3v2Header(buf)`: ten bytes, the last four a synchsafe size. The
      identifier is read but not compared with "ID3". */
  function ParseHeader(buf: seq<Byte>): Result<Header>
  {
    if |buf| < 10 then Err(TruncatedBuffer)
    else Ok(Header(buf[..3], buf[3], buf[4], buf[5], SynchsafeDecode([buf[6], buf[7], buf[8], buf[9]]), 10))
  }

  /** The header is what `BinaryBase` decodes with the header's items. */
  lemma HeaderIsBinaryBase(buf: seq<Byte>)
    ensures Decode(HeaderItems, buf).Ok? <==> ParseHeader(buf).Ok?
    ensures ParseHeader(buf).Ok? ==>
      var rec := Decode(HeaderItems, buf).value;
      ParseHeader(buf).value == Header(BytesOf(rec.values[0]), NumOf(rec.values[1]), NumOf(rec.values[2]),
                                       NumOf(rec.values[3]), NumOf(rec.values[4]), rec.size)
  {
    HeaderLayout(buf);
  }

  lemma HeaderLayout(buf: seq<Byte>)
    ensures Decode(HeaderItems, buf).Ok? <==> |buf| >= 10
    ensures Decode(HeaderItems, buf).Ok? ==>
      var rec := Decode(HeaderItems, buf).value;
      rec.size == 10 && rec.values[0] == Raw(buf[..3]) && rec.values[1] == Num(buf[3]) &&
      rec.values[2] == Num(buf[4]) && rec.values[3] == Num(buf[5]) &&
      rec.values[4] == Num(SynchsafeDecode([buf[6], buf[7], buf[8], buf[9]]))
  {
    var items := HeaderItems;
    assert items[..4][..3] == items[..3];
    assert items[..3][..2] == items[..2];
    assert items[..2][..1] == items[..1];
    assert items[..1][..0] == [];
    assert items[..5] == items;
    ItemsStep(items[..1], buf);
    ItemsStep(items[..2], buf);
    ItemsStep(items[..3], buf);
    ItemsStep(items[..4], buf);
    ItemsStep(items, buf);
    if |buf| >= 10 {
      assert buf[6..10] == [buf[6], buf[7], buf[8], buf[9]];
      var ns: seq<nat> := seq(4, i requires 0 <= i < 4 => buf[6..10][i] as nat);
      assert ns == [buf[6], buf[7], buf[8], buf[9]];
    }
  }

  datatype ExtHeader = ExtHeader(extendedHeaderSize: nat, extendedFlag: nat, paddingSize: nat, size: nat)

  /** `ID3v2ExtendedHeader(buf)`: ten bytes of three big-endian integers. */
  function ParseExtHeader(buf: seq<Byte>): Result<ExtHeader>
  {
    if |buf| < 10 then Err(TruncatedBuffer)
    else Ok(ExtHeader(U32(buf, 0), U16(buf, 4), U32(buf, 6), 10))
  }

  /** The extended header is what `BinaryBase` decodes with its items. */
  lemma ExtHeaderIsBinaryBase(buf: seq<Byte>)
    ensures Decode(ExtHeaderItems, buf).Ok? <==> ParseExtHeader(buf).Ok?
    ensures ParseExtHeader(buf).Ok? ==>
      var rec := Decode(ExtHeaderItems, buf).value;
      ParseExtHeader(buf).value == ExtHeader(NumOf(rec.values[0]), NumOf(rec.values[1]), NumOf(rec.values[2]), rec.size)
  {
    ExtHeaderLayout(buf);
  }

  lemma ExtHeaderLayout(buf: seq<Byte>)
    ensures Decode(ExtHeaderItems, buf).Ok? <==> |buf| >= 10
    ensures Decode(ExtHeaderItems, buf).Ok? ==>
      var rec := Decode(ExtHeaderItems, buf).value;
      rec.size == 10 && rec.values[0] == Num(U32(buf, 0)) &&
      rec.values[1] == Num(U16(buf, 4)) && rec.values[2] == Num(U32(buf, 6))
  {
    var items := ExtHeaderItems;
    assert items[..2][..1] == items[..1];
    assert items[..1][..0] == [];
    assert items[..3] == items;
    ItemsStep(items[..1], buf);
    ItemsStep(items[..2], buf);
    ItemsStep(items, buf);
    if |buf| >= 10 {
      BigEndianFixed(buf, 0);
      BigEndianFixed(buf, 4);
      BigEndianFixed(buf, 6);
    }
  }

  datatype FrameHeader = FrameHeader(frameId: seq<Byte>, dataSize: nat, flags: nat, size: nat)

  /** `ID3v2FrameHeader(buf)`: a four-byte identifier, a big-endian 32-bit
      body size and 16 bits of flags. */
  function ParseFrameHeader(buf: seq<Byte>): Result<FrameHeader>
  {
    if |buf| < 10 then Err(TruncatedBuffer)
    else Ok(FrameHeader(buf[..4], U32(buf, 4), U16(buf, 8), 10))
  }

  /** The frame header is what `BinaryBase` decodes with its items. */
  lemma FrameHeaderIsBinaryBase(buf: seq<Byte>)
    ensures Decode(FrameHeaderItems, buf).Ok? <==> ParseFrameHeader(buf).Ok?
    ensures ParseFrameHeader(buf).Ok? ==>
      var rec := Decode(FrameHeaderItems, buf).value;
      ParseFrameHeader(buf).value == FrameHeader(BytesOf(rec.values[0]), NumOf(rec.values[1]), NumOf(rec.values[2]), rec.size)
  {
    FrameHeaderLayout(buf);
  }

  lemma FrameHeaderLayout(buf: seq<Byte>)
    ensures Decode(FrameHeaderItems, buf).Ok? <==> |buf| >= 10
    ensures Decode(FrameHeaderItems, buf).Ok? ==>
      var rec := Decode(FrameHeaderItems, buf).value;
      rec.size == 10 && rec.values[0] == Raw(buf[..4]) &&
      rec.values[1] == Num(U32(buf, 4)) && rec.values[2] == Num(U16(buf, 8))
  {
    var items := FrameHeaderItems;
    assert items[..2][..1] == items[..1];
    assert items[..1][..0] == [];
    assert items[..3] == items;
    ItemsStep(items[..1], buf);
    ItemsStep(items[..2], buf);
    ItemsStep(items, buf);
    if |buf| >= 10 {
      assert buf[0..4] == buf[..4];
      BigEndianFixed(buf, 4);
      BigEndianFixed(buf, 8);
    }
  }

  /** The frame classes `FrameForIdentifier` chooses between. */
  datatype FrameKind = UfidKind | TextKind | RawKind

  const Ufid: seq<Byte> := [0x55, 0x46, 0x49, 0x44]   // "UFID"
  const Txxx: seq<Byte> := [0x54, 0x58, 0x58, 0x58]   // "TXXX"
  const Wxxx: seq<Byte> := [0x57, 0x58, 0x58, 0x58]   // "WXXX"

  /** `FrameForIdentifier`: "UFID" frames are unique file identifiers, "T"
      frames other than "TXXX" are text frames, and every other frame is
      kept raw. */
  function KindFor(id: seq<Byte>): (k: FrameKind)
    ensures k == UfidKind <==> id == Ufid
    ensures k == TextKind <==> StartsWith(id, [0x54]) && id != Txxx
    ensures k == RawKind <==> id != Ufid && (id == Txxx || !StartsWith(id, [0x54]))
  {
    assert Ufid[..1] == [0x55] && Txxx[..1] == [0x54];
    if id == Ufid then UfidKind
    else if id == Txxx then RawKind
    else if StartsWith(id, [0x54]) then TextKind
    else if id == Wxxx then RawKind
    else if StartsWith(id, [0x57]) then RawKind
    else RawKind
  }

  /** A decoded frame body. Every frame keeps its raw bytes (its size is
      their length); a unique file identifier splits them at the first NUL,
      a text frame at its encoding byte. */
  datatype Frame =
    | RawFrame(raw: seq<Byte>)
    | UfidFrame(raw: seq<Byte>, ownerId: seq<Byte>, id: seq<Byte>)
    | TextFrame(raw: seq<Byte>, encoding: nat, text: seq<Byte>)

  /** `raw.index(b'\0')`: the position of the first NUL, if any. */
  function IndexOfNul(s: seq<Byte>): (r: Option<nat>)
    ensures r.Some? ==> r.value < |s| && s[r.value] == 0 && forall j :: 0 <= j < r.value ==> s[j] != 0
    ensures r.None? ==> forall j :: 0 <= j < |s| ==> s[j] != 0
    decreases |s|
  {
    if |s| == 0 then None
    else if s[0] == 0 then Some(0)
    else match IndexOfNul(s[1..])
      case None => None
      case Some(i) => Some(i + 1)
  }

  /** `TextEncodingDescription`: ISO-8859-1, UTF-16, UTF-16BE, UTF-8. */
  const TextEncodings: EnumClass := IntEnum({0, 1, 2, 3})

  /** The frame class applied to a body. A unique file identifier needs a
      NUL; a text frame needs an encoding byte naming one of the four
      encodings. */
  function MakeFrame(kind: FrameKind, buf: seq<Byte>): (r: Result<Frame>)
    ensures r.Ok? ==> r.value.raw == buf
    ensures kind == RawKind ==> r == Ok(RawFrame(buf))
    ensures r.Ok? ==> (r.value.UfidFrame? <==> kind == UfidKind) && (r.value.TextFrame? <==> kind == TextKind)
  {
    match kind
    case RawKind => Ok(RawFrame(buf))
    case UfidKind =>
      (match IndexOfNul(buf)
       case None => Err(MissingNul)
       case Some(idx) => Ok(UfidFrame(buf, buf[..idx], buf[idx + 1..])))
    case TextKind =>
      if |buf| == 0 then Err(TruncatedBuffer)
      else
        var enc :- EnumDecode(TextEncodings, buf[0]);
        Ok(TextFrame(buf, enc, buf[1..]))
  }

  /** A unique file identifier frame succeeds exactly when its body holds a
      NUL; the owner is everything before the first NUL and the identifier
      everything after it. */
  lemma UfidSplit(buf: seq<Byte>)
    ensures MakeFrame(UfidKind, buf).Ok? <==> 0 in buf
    ensures MakeFrame(UfidKind, buf).Err? ==> MakeFrame(UfidKind, buf).error == MissingNul
    ensures MakeFrame(UfidKind, buf).Ok? ==>
      var f := MakeFrame(UfidKind, buf).value;
      f.ownerId + [0] + f.id == buf && 0 !in f.ownerId
  {
    var idx := IndexOfNul(buf);
    if idx.Some? {
      var i := idx.value;
      assert buf[..i] + [0] + buf[i + 1..] == buf[..i] + buf[i..];
      assert buf[..i] + buf[i..] == buf;
    }
  }

  /** A text frame succeeds exactly when its body starts with an encoding
      byte below 4, which it then separates from the rest of the body. */
  lemma TextSplit(buf: seq<Byte>)
    ensures MakeFrame(TextKind, buf).Ok? <==> |buf| > 0 && buf[0] < 4
    ensures |buf| == 0 ==> MakeFrame(TextKind, buf) == Err(TruncatedBuffer)
    ensures |buf| > 0 && buf[0] >= 4 ==> MakeFrame(TextKind, buf) == Err(InvalidEnumValue)
    ensures MakeFrame(TextKind, buf).Ok? ==>
      var f := MakeFrame(TextKind, buf).value;
      f.TextFrame? && [f.encoding as Byte] + f.text == buf
  {
    if |buf| > 0 {
      assert buf[0] < 4 <==> buf[0] in {0, 1, 2, 3};
      assert [buf[0]] + buf[1..] == buf;
    }
  }

  /** A frame as the loop found it: where its header starts in the tag
      content, the header, and the body. */
  datatype FrameEntry = FrameEntry(offset: nat, header: FrameHeader, frame: Frame)

  /** How a frame body becomes a frame: `MakeFrame` for a decoded tag. The
      frame loop is written over any such constructor, so that reasoning
      about the loop does not depend on what each frame class does. */
  type FrameMaker = (FrameKind, seq<Byte>) -> Result<Frame>

  /** The frame header at `offset` of the content, read in place. */
  function FrameHeaderAt(content: seq<Byte>, offset: nat): (r: Result<FrameHeader>)
    ensures r.Ok? <==> offset + 10 <= |content|
    ensures r.Ok? ==> r.value.size == 10
  {
    if offset + 10 > |content| then Err(TruncatedBuffer)
    else Ok(FrameHeader(content[offset..offset + 4], U32(content, offset + 4), U16(content, offset + 8), 10))
  }

  /** Reading in place is parsing the rest of the content as a frame header. */
  lemma FrameHeaderAtIsParse(content: seq<Byte>, offset: nat)
    requires offset <= |content|
    ensures FrameHeaderAt(content, offset) == ParseFrameHeader(content[offset..])
  {
    var rest := content[offset..];
    if |rest| >= 10 {
      assert rest[..4] == content[offset..offset + 4];
      assert rest[4] == content[offset + 4] && rest[5] == content[offset + 5];
      assert rest[6] == content[offset + 6] && rest[7] == content[offset + 7];
      assert rest[8] == content[offset + 8] && rest[9] == content[offset + 9];
    }
  }

  /** One frame of the loop at `offset`: its header, then the frame class
      chosen by its identifier applied to the `data_size` bytes after the
      header (fewer when the content ends first). */
  function ReadFrame(make: FrameMaker, content: seq<Byte>, offset: nat): (r: Result<(FrameHeader, Frame)>)
    ensures offset + 10 > |content| ==> r == Err(TruncatedBuffer)
    ensures r.Ok? ==> r.value.0 == FrameHeaderAt(content, offset).value
    ensures r.Ok? <==> (FrameHeaderAt(content, offset).Ok? &&
                        make(KindFor(content[offset..offset + 4]), FrameBody(content, offset)).Ok?)
    ensures r.Ok? ==> r.value.1 == make(KindFor(content[offset..offset + 4]), FrameBody(content, offset)).value
  {
    var header :- FrameHeaderAt(content, offset);
    var frame :- make(KindFor(header.frameId), FrameBody(content, offset));
    Ok((header, frame))
  }

  /** The body of the frame whose header is at `offset`: the `data_size`
      bytes after the header, or as many of them as the content holds. */
  function FrameBody(content: seq<Byte>, offset: nat): (r: seq<Byte>)
    requires offset + 10 <= |content|
    ensures |r| <= U32(content, offset + 4) && offset + 10 + |r| <= |content|
    ensures |r| == U32(content, offset + 4) || offset + 10 + |r| == |content|
    ensures forall k :: 0 <= k < |r| ==> r[k] == content[offset + 10 + k]
  {
    ClampSlice(content, offset + 10, offset + 10 + U32(content, offset + 4))
  }

  /** Where the frame loop stands after the entries: past the last frame's
      body, or where it started when there are none. */
  function LoopEnd(start: nat, entries: seq<FrameEntry>): nat
  {
    if |entries| == 0 then start
    else entries[|entries| - 1].offset + 10 + entries[|entries| - 1].header.dataSize
  }

  /** The frame loop of `ID3v2Tag.__init__` from `offset`: stop at the end of
      the content or at a NUL (padding); otherwise read a frame header, the
      frame body after it, and continue past the body. */
  function ParseFrames(make: FrameMaker, content: seq<Byte>, offset: nat): (r: Result<seq<FrameEntry>>)
    ensures r.Ok? && |r.value| > 0 ==> r.value[0].offset == offset
    decreases if offset <= |content| then |content| - offset else 0
  {
    if offset >= |content| || content[offset] == 0 then Ok([])
    else
      var read :- ReadFrame(make, content, offset);
      var (header, frame) := read;
      var next := offset + header.size + header.dataSize;
      var rest :- ParseFrames(make, content, next);
      Ok([FrameEntry(offset, header, frame)] + rest)
  }

  /** One turn of the frame loop: when it does not stop at `offset`, the
      frame read there succeeds and the entries are that frame followed by
      the loop's entries from just past its body. */
  lemma FramesStep(make: FrameMaker, content: seq<Byte>, offset: nat) returns (next: nat)
    requires offset < |content| && content[offset] != 0 && ParseFrames(make, content, offset).Ok?
    ensures ReadFrame(make, content, offset).Ok?
    ensures next == offset + 10 + ReadFrame(make, content, offset).value.0.dataSize
    ensures ParseFrames(make, content, next).Ok?
    ensures ParseFrames(make, content, offset).value
      == [FrameEntry(offset, ReadFrame(make, content, offset).value.0, ReadFrame(make, content, offset).value.1)]
         + ParseFrames(make, content, next).value
  {
    next := offset + 10 + ReadFrame(make, content, offset).value.0.dataSize;
  }

  /** Each frame starts where the body of the one before it ends, ten header
      bytes plus `data_size` further on, and the loop stops where the content
      ends or a NUL byte begins the padding. */
  lemma {:induction false} FramesChain(make: FrameMaker, content: seq<Byte>, offset: nat)
    ensures ParseFrames(make, content, offset).Ok? ==>
      var entries := ParseFrames(make, content, offset).value;
      (forall k :: 0 <= k < |entries| - 1 ==> entries[k + 1].offset == entries[k].offset + 10 + entries[k].header.dataSize) &&
      (LoopEnd(offset, entries) >= |content| || content[LoopEnd(offset, entries)] == 0)
    decreases if offset <= |content| then |content| - offset else 0
  {
    if ParseFrames(make, content, offset).Ok? && offset < |content| && content[offset] != 0 {
      var next := FramesStep(make, content, offset);
      FramesChain(make, content, next);
      var rest := ParseFrames(make, content, next).value;
      var entries := ParseFrames(make, content, offset).value;
      assert forall k :: 1 <= k < |entries| ==> entries[k] == rest[k - 1];
      assert LoopEnd(offset, entries) == LoopEnd(next, rest);
    }
  }

  /** An entry of the frame loop starts inside the content on a byte other
      than NUL, and is the frame read at its offset. */
  predicate ReadAt(make: FrameMaker, content: seq<Byte>, e: FrameEntry)
  {
    e.offset < |content| && content[e.offset] != 0 && ReadFrame(make, content, e.offset) == Ok((e.header, e.frame))
  }

  /** Every entry of the frame loop is the frame read at its offset. */
  lemma {:induction false} FramesRead(make: FrameMaker, content: seq<Byte>, offset: nat)
    ensures ParseFrames(make, content, offset).Ok? ==> forall k :: 0 <= k < |ParseFrames(make, content, offset).value| ==>
      ReadAt(make, content, ParseFrames(make, content, offset).value[k])
    decreases if offset <= |content| then |content| - offset else 0
  {
    if ParseFrames(make, content, offset).Ok? && offset < |content| && content[offset] != 0 {
      var next := FramesStep(make, content, offset);
      FramesRead(make, content, next);
      var rest := ParseFrames(make, content, next).value;
      var entries := ParseFrames(make, content, offset).value;
      var first := ReadFrame(make, content, offset).value;
      assert entries == [FrameEntry(offset, first.0, first.1)] + rest;
      assert entries[0] == FrameEntry(offset, first.0, first.1) && entries[1..] == rest;
      ReadAtCons(make, content, entries);
    }
  }

  /** Entries read at their offsets: the first, and those after it. */
  lemma ReadAtCons(make: FrameMaker, content: seq<Byte>, entries: seq<FrameEntry>)
    requires |entries| > 0 && ReadAt(make, content, entries[0])
    requires forall k :: 0 <= k < |entries[1..]| ==> ReadAt(make, content, entries[1..][k])
    ensures forall k :: 0 <= k < |entries| ==> ReadAt(make, content, entries[k])
  {
    forall k | 1 <= k < |entries|
      ensures ReadAt(make, content, entries[k])
    {
      assert entries[k] == entries[1..][k - 1];
    }
  }

  /** What the extended-header step leaves behind: the extended header and
      the frame-data CRC when present, and where the frames start. The code
      stores the CRC as the one-element tuple `struct.unpack_from` returns;
      the model keeps the integer inside it. */
  function ExtendedPart(flag: nat, content: seq<Byte>): (r: Result<(Option<ExtHeader>, Option<nat>, nat)>)
    ensures r.Ok? ==> (r.value.0.Some? <==> FlagSet(flag, 6))
    ensures r.Ok? ==> (r.value.1.Some? <==> FlagSet(flag, 6) && FlagSet(r.value.0.value.extendedFlag, 15))
    ensures r.Ok? ==> r.value.2 == (if r.value.1.Some? then 14 else if r.value.0.Some? then 10 else 0)
    ensures !FlagSet(flag, 6) ==> r.Ok?
    ensures FlagSet(flag, 6) ==> (r.Ok? <==> |content| >= 10 && (FlagSet(U16(content, 4), 15) ==> |content| >= 14))
    ensures r.Ok? && r.value.0.Some? ==> r.value.0.value == ParseExtHeader(content).value
    ensures r.Ok? && r.value.1.Some? ==> |content| >= 14 && r.value.1.value == U32(content, 10)
  {
    if FlagSet(flag, 6) then
      var ext :- ParseExtHeader(content);
      if FlagSet(ext.extendedFlag, 15) then
        var crc :- Unpack(BE32, content, ext.size);
        BigEndianFixed(content, 10);
        Ok((Some(ext), Some(NumOf(crc)), ext.size + 4))
      else Ok((Some(ext), None, ext.size))
    else Ok((None, None, 0))
  }

  /** The tag content: the `tagsize` bytes after the header, as many as
      the data holds, with the unsynchronisation removed when flag bit 7 is
      set. */
  function Content(header: Header, data: seq<Byte>): seq<Byte>
  {
    var body := ClampSlice(data, header.size, header.size + header.tagsize);
    if FlagSet(header.flag, 7) then RemoveUnsync(body) else body
  }

  /** A decoded tag: the header, the extended header and CRC when present,
      the (unsynchronised) content, the frames in wire order, and `size`,
      the bytes the tag occupies in the file. `content` is the constructor's
      local `content`, which the code does not keep as an attribute. */
  datatype Tag = Tag(header: Header, extHeader: Option<ExtHeader>, crc: Option<nat>,
                     content: seq<Byte>, frames: seq<FrameEntry>, size: nat)

  /** Where the frame loop of a decoded tag starts in its content: after the
      extended header and the CRC, whichever are present. */
  function FramesStart(t: Tag): nat
  {
    if t.crc.Some? then 14 else if t.extHeader.Some? then 10 else 0
  }

  /** `ID3v2Tag(data)`: the header, the content after it, the extended
      header step, then the frame loop from where that step leaves off. */
  function ParseTag(data: seq<Byte>): (r: Result<Tag>)
    ensures r.Ok? ==> |data| >= 10 && r.value.size == 10 + r.value.header.tagsize
    ensures r.Ok? ==> ParseHeader(data) == Ok(r.value.header) && r.value.content == Content(r.value.header, data)
  {
    var header :- ParseHeader(data);
    var final := header.size + header.tagsize;
    var content := Content(header, data);
    var ext :- ExtendedPart(header.flag, content);
    var frames :- ParseFrames(MakeFrame, content, ext.2);
    Ok(Tag(header, ext.0, ext.1, content, frames, final))
  }

  /** A tag decodes exactly when its header, the extended-header step on
      its content and the frame loop from where that step leaves off all
      succeed; the tag then holds the extended header and CRC of that step
      and the entries of that loop. */
  lemma TagSteps(data: seq<Byte>)
    ensures ParseTag(data).Ok? <==> (ParseHeader(data).Ok? &&
      var h := ParseHeader(data).value;
      var ext := ExtendedPart(h.flag, Content(h, data));
      ext.Ok? && ParseFrames(MakeFrame, Content(h, data), ext.value.2).Ok?)
    ensures ParseTag(data).Ok? ==>
      var t := ParseTag(data).value;
      var ext := ExtendedPart(t.header.flag, t.content);
      ext.Ok? && t.extHeader == ext.value.0 && t.crc == ext.value.1 && ext.value.2 == FramesStart(t) &&
      t.frames == ParseFrames(MakeFrame, t.content, FramesStart(t)).value
  {
  }

  /** Every frame of a decoded tag was read at its offset in the content:
      its header is the ten bytes there, and its frame is the class its
      identifier selects applied to the body after them. */
  lemma TagFrames(data: seq<Byte>)
    ensures ParseTag(data).Ok? ==>
      var t := ParseTag(data).value;
      forall k :: 0 <= k < |t.frames| ==>
        t.frames[k].offset + 10 <= |t.content| && t.content[t.frames[k].offset] != 0 &&
        t.frames[k].header == FrameHeaderAt(t.content, t.frames[k].offset).value &&
        MakeFrame(KindFor(t.frames[k].header.frameId), FrameBody(t.content, t.frames[k].offset)) == Ok(t.frames[k].frame)
  {
    if ParseTag(data).Ok? {
      var t := ParseTag(data).value;
      FramesRead(MakeFrame, t.content, FramesStart(t));
      forall k | 0 <= k < |t.frames|
        ensures t.frames[k].offset + 10 <= |t.content| && t.content[t.frames[k].offset] != 0
        ensures t.frames[k].header == FrameHeaderAt(t.content, t.frames[k].offset).value
        ensures MakeFrame(KindFor(t.frames[k].header.frameId), FrameBody(t.content, t.frames[k].offset)) == Ok(t.frames[k].frame)
      {
        var e := t.frames[k];
        assert ReadAt(MakeFrame, t.content, e);
        assert ReadFrame(MakeFrame, t.content, e.offset) == Ok((e.header, e.frame));
      }
    }
  }

  /** The frames of a decoded tag start after the extended header and the
      CRC; each starts where the body of the one before it ends; and the
      loop stops at the end of the content or at a NUL. */
  lemma TagChain(data: seq<Byte>)
    ensures ParseTag(data).Ok? ==>
      var t := ParseTag(data).value;
      var start := FramesStart(t);
      ((start >= |t.content| || t.content[start] == 0) ==> t.frames == []) &&
      (|t.frames| > 0 ==> t.frames[0].offset == start) &&
      (forall k :: 0 <= k < |t.frames| - 1 ==> t.frames[k + 1].offset == t.frames[k].offset + 10 + t.frames[k].header.dataSize) &&
      (LoopEnd(start, t.frames) >= |t.content| || t.content[LoopEnd(start, t.frames)] == 0)
  {
    if ParseTag(data).Ok? {
      var t := ParseTag(data).value;
      FramesChain(MakeFrame, t.content, FramesStart(t));
    }
  }

  /** The extended header of a decoded tag is present exactly when flag
      bit 6 is set, and is then the ten bytes at the start of the content;
      the frame-data CRC is present exactly when bit 15 of its flags is set,
      and is then the big-endian 32 bits after it. */
  lemma TagExtended(data: seq<Byte>)
    ensures ParseTag(data).Ok? ==>
      var t := ParseTag(data).value;
      (t.extHeader.Some? <==> FlagSet(t.header.flag, 6)) &&
      (t.extHeader.Some? ==> t.extHeader.value == ParseExtHeader(t.content).value) &&
      (t.crc.Some? <==> t.extHeader.Some? && FlagSet(t.extHeader.value.extendedFlag, 15)) &&
      (t.crc.Some? ==> |t.content| >= 14 && t.crc.value == U32(t.content, 10))
  {
  }

  /** The content is never longer than the tag size the header announces:
      it is at most that many bytes of the data, and removing the
      unsynchronisation only shortens it. */
  lemma TagContentSize(data: seq<Byte>)
    ensures ParseTag(data).Ok? ==> |ParseTag(data).value.content| <= ParseTag(data).value.header.tagsize
  {
    if ParseTag(data).Ok? {
      var h := ParseHeader(data).value;
      var body := ClampSlice(data, h.size, h.size + h.tagsize);
      RemoveUnsyncLength(body);
    }
  }

  /** The header parse does not look for the "ID3" marker: ten zero bytes
      decode to a header with identifier 00 00 00 and an empty tag. */
  lemma HeaderAcceptsAnyMarker()
    ensures ParseHeader([0, 0, 0, 0, 0, 0, 0, 0, 0, 0]).Ok?
    ensures ParseHeader([0, 0, 0, 0, 0, 0, 0, 0, 0, 0]).value.identifier != Id3Magic
    ensures ParseTag([0, 0, 0, 0, 0, 0, 0, 0, 0, 0]) ==
      Ok(Tag(Header([0, 0, 0], 0, 0, 0, 0, 10), None, None, [], [], 10))
  {
    var z: seq<Byte> := [0, 0, 0, 0, 0, 0, 0, 0, 0, 0];
    var zs: seq<nat> := [z[6], z[7], z[8], z[9]];
    assert forall i :: 0 <= i < |zs| ==> zs[i] == 0;
    var h := Header([0, 0, 0], 0, 0, 0, 0, 10);
    assert z[..3] == [0, 0, 0] && Id3Magic[0] != 0;
    assert ParseHeader(z) == Ok(h);
    ShrSmall(0, 7);
    assert ClampSlice(z, 10, 10) == [];
    assert Content(h, z) == [];
    ShrSmall(0, 6);
    assert ExtendedPart(0, []) == Ok((None, None, 0));
    assert ParseFrames(MakeFrame, [], 0) == Ok([]);
  }

  /** The content of a decoded tag is the data after the 10-byte header, up
      to `tagsize` bytes: taken as is without flag bit 7, with every `FF 00`
      turned into `FF` with it. */
  lemma TagContent(data: seq<Byte>)
    requires ParseTag(data).Ok?
    ensures var t := ParseTag(data).value;
      var n := Min(t.header.tagsize, |data| - 10);
      var body := data[10..10 + n];
      t.content == (if FlagSet(t.header.flag, 7) then RemoveUnsync(body) else body)
  {
    var t := ParseTag(data).value;
    HeaderContent(data, t.header, t.content);
  }

  /** The content of a parsed header, read from the data after it. */
  lemma HeaderContent(data: seq<Byte>, h: Header, content: seq<Byte>)
    requires ParseHeader(data) == Ok(h) && content == Content(h, data)
    ensures |data| >= 10
    ensures var body := data[10..10 + Min(h.tagsize, |data| - 10)];
      content == (if FlagSet(h.flag, 7) then RemoveUnsync(body) else body)
  {
    var n := Min(h.tagsize, |data| - 10);
    assert ClampSlice(data, 10, 10 + h.tagsize) == data[10..10 + n];
  }

  /** The size bytes `00 00 02 01` of a header announce 257 bytes of tag
      content, so the tag spans 267 bytes. */
  lemma HeaderSizeExample(buf: seq<Byte>)
    requires |buf| >= 10 && buf[6] == 0 && buf[7] == 0 && buf[8] == 2 && buf[9] == 1
    ensures ParseHeader(buf).Ok? && ParseHeader(buf).value.tagsize == 257
    ensures ParseTag(buf).Ok? ==> ParseTag(buf).value.size == 267
  {
    DecodeExample();
    assert [buf[6], buf[7], buf[8], buf[9]] == [0, 0, 2, 1];
  }

  /** Unsynchronised bytes `11 FF 00 D3` read back as `11 FF D3`; a lone
      `FF` or a `00` that follows no `FF` stays. */
  lemma UnsyncExample()
    ensures RemoveUnsync([0x11, 0xFF, 0x00, 0xD3]) == [0x11, 0xFF, 0xD3]
    ensures RemoveUnsync([0xFF, 0xFF, 0x00, 0x00]) == [0xFF, 0xFF, 0x00]
    ensures RemoveUnsync([0x00, 0xFF]) == [0x00, 0xFF]
  {
    var a: seq<Byte> := [0x11, 0xFF, 0x00, 0xD3];
    assert a[1..] == [0xFF, 0x00, 0xD3];
    assert a[1..][2..] == [0xD3];
    var b: seq<Byte> := [0xFF, 0xFF, 0x00, 0x00];
    assert b[1..] == [0xFF, 0x00, 0x00];
    assert b[1..][2..] == [0x00];
    var c: seq<Byte> := [0x00, 0xFF];
    assert c[1..] == [0xFF];
  }
}
