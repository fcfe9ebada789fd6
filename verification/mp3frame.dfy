/** One MPEG audio frame: the 32-bit frame header, the values derived from it
    (bit rate, sample rate, frame length, channel count), and the start of
    the frame body, an optional CRC and the layer III side information. */
module Mp3Frame {
  import opened Common
  import opened Arith
  import opened BitView
  import opened Transformers
  import opened Bitfield
  import opened Binary
  import opened Shapes

  /** `MPEGAudioVersionID`: 0 is MPEG 2.5, 1 is reserved, 2 is MPEG 2 and 3
      is MPEG 1. */
  const Version25: nat := 0
  const VersionReserved: nat := 1
  const Version2: nat := 2
  const Version1: nat := 3

  /** `LayerDescription`: 0 is reserved, 1 is layer III, 2 layer II, 3 layer I. */
  const LayerReserved: nat := 0
  const Layer3: nat := 1
  const Layer2: nat := 2
  const Layer1: nat := 3

  /** `ChannelMode`: 3 is a single channel; 0 to 2 are the two-channel modes. */
  const SingleChannel: nat := 3

  /** Each of the three enumerations names every 2-bit value. */
  const TwoBitEnum: EnumClass := IntEnum({0, 1, 2, 3})

  /** The fields of `MP3FrameHeader`, in declaration order; each is declared
      with a bare width, which `MakeField` turns into the shape (1,). */
  const HeaderFields: seq<Field> := [
    Field(11, NoClass, [1]),            // frame_sync
    Field(2, EnumOf(TwoBitEnum), [1]),  // mpeg_audio_version
    Field(2, EnumOf(TwoBitEnum), [1]),  // layer_description
    Field(1, NoClass, [1]),             // protection
    Field(4, NoClass, [1]),             // bitrate_index
    Field(2, NoClass, [1]),             // sample_rate_index
    Field(1, Boolean, [1]),             // padding
    Field(1, Boolean, [1]),             // private
    Field(2, EnumOf(TwoBitEnum), [1]),  // channel_mode
    Field(2, NoClass, [1]),             // mode_extension
    Field(1, Boolean, [1]),             // copyright
    Field(1, Boolean, [1]),             // original
    Field(2, NoClass, [1])              // emphasis
  ]

  /** The header fields are the declarations `Field(w)` and
      `Field(w, klass)` with their bare default shape 1. */
  lemma HeaderFieldsDeclared()
    ensures HeaderFields == [
      MakeField(11, NoClass, Dim(1)), MakeField(2, EnumOf(TwoBitEnum), Dim(1)),
      MakeField(2, EnumOf(TwoBitEnum), Dim(1)), MakeField(1, NoClass, Dim(1)),
      MakeField(4, NoClass, Dim(1)), MakeField(2, NoClass, Dim(1)),
      MakeField(1, Boolean, Dim(1)), MakeField(1, Boolean, Dim(1)),
      MakeField(2, EnumOf(TwoBitEnum), Dim(1)), MakeField(2, NoClass, Dim(1)),
      MakeField(1, Boolean, Dim(1)), MakeField(1, Boolean, Dim(1)),
      MakeField(2, NoClass, Dim(1))]
  {
  }

  /** The widths of the header fields and the bit offset each starts at; the
      last offset is the width of the whole header. */
  const HeaderWidths: seq<nat> := [11, 2, 2, 1, 4, 2, 1, 1, 2, 2, 1, 1, 2]
  const HeaderOffsets: seq<nat> := [0, 11, 13, 15, 16, 20, 22, 23, 24, 26, 28, 29, 30, 32]

  /** A decoded frame header. `protection` is 0 when a CRC follows the
      header; `size` is the header's size in bytes. */
  datatype Header = Header(
    frameSync: nat, version: nat, layer: nat, protection: nat,
    bitrateIndex: nat, sampleRateIndex: nat, padding: bool, isPrivate: bool,
    channelMode: nat, modeExtension: nat, copyright: bool, original: bool,
    emphasis: nat, size: nat)

  /** `MP3FrameHeader(data)`, field by field from the first four bytes, most
      significant bit first. Every enumeration accepts every 2-bit value, so
      the only failure is a buffer shorter than the header. */
  function DecodeHeader(data: seq<Byte>): (r: Result<Header>)
    ensures r.Ok? <==> |data| >= 4
    ensures r.Err? ==> r.error == TruncatedBuffer
    ensures r.Ok? ==> r.value.size == 4
  {
    if |data| < 4 then Err(TruncatedBuffer)
    else
      Ok(Header(
        frameSync := (data[0] as nat) * 8 + ByteBits(data[1], 0, 3),
        version := ByteBits(data[1], 3, 2),
        layer := ByteBits(data[1], 5, 2),
        protection := ByteBits(data[1], 7, 1),
        bitrateIndex := ByteBits(data[2], 0, 4),
        sampleRateIndex := ByteBits(data[2], 4, 2),
        padding := ByteBits(data[2], 6, 1) != 0,
        isPrivate := ByteBits(data[2], 7, 1) != 0,
        channelMode := ByteBits(data[3], 0, 2),
        modeExtension := ByteBits(data[3], 2, 2),
        copyright := ByteBits(data[3], 4, 1) != 0,
        original := ByteBits(data[3], 5, 1) != 0,
        emphasis := ByteBits(data[3], 6, 2),
        size := 4))
  }

  /** The field values a header stands for, in declaration order. */
  function HeaderValues(h: Header): (vs: seq<FieldValue>)
    ensures |vs| == |HeaderFields|
  {
    [Scalar(IntV(h.frameSync)), Scalar(IntV(h.version)), Scalar(IntV(h.layer)),
     Scalar(IntV(h.protection)), Scalar(IntV(h.bitrateIndex)), Scalar(IntV(h.sampleRateIndex)),
     Scalar(BoolV(h.padding)), Scalar(BoolV(h.isPrivate)), Scalar(IntV(h.channelMode)),
     Scalar(IntV(h.modeExtension)), Scalar(BoolV(h.copyright)), Scalar(BoolV(h.original)),
     Scalar(IntV(h.emphasis))]
  }

  /** Every header field is a scalar of its listed width. */
  lemma FieldWidth(j: nat)
    requires j < |HeaderFields|
    ensures HeaderFields[j].shape == [1] && HeaderFields[j].bits == HeaderWidths[j]
    ensures WholeBits(HeaderFields[j]) == HeaderWidths[j]
  {
    ProductOne(1);
    assert Mul(HeaderFields[j].bits, 1) == HeaderFields[j].bits;
  }

  /** The fields before field i take up exactly `HeaderOffsets[i]` bits. */
  lemma PrefixBits(i: nat)
    requires i <= |HeaderFields|
    ensures TotalBits(HeaderFields[..i]) == HeaderOffsets[i]
  {
    forall j | 0 <= j < |HeaderFields|
      ensures WholeBits(HeaderFields[j]) == HeaderWidths[j]
    {
      FieldWidth(j);
    }
    TotalBitsPrefix(HeaderFields, HeaderWidths, HeaderOffsets, i);
  }

  /** The header fields span 32 bits, so a header is four bytes. */
  lemma HeaderWidth()
    ensures TotalBits(HeaderFields) == 32
  {
    PrefixBits(|HeaderFields|);
    assert HeaderFields[..|HeaderFields|] == HeaderFields;
  }

  /** The reader the generic decoder starts from on a frame's bytes. */
  function HeaderReader(data: seq<Byte>): Reader
  {
    StartReader(FromBuffer(data), 4)
  }

  /** Field i of a record laid over four bytes, a scalar found `off` bits
      in, is the bits there converted by its class. */
  lemma HeaderFieldIs(data: seq<Byte>, fields: seq<Field>, i: nat, f: Field, off: nat)
    requires |data| >= 4 && i < |fields| && fields[i] == f && f.shape == [1]
    requires TotalBits(fields[..i]) == off && f.bits >= 1 && off + f.bits <= 32
    ensures FieldAt(HeaderReader(data), fields, i).Ok? <==> Convert(f.klass, BitsValue(data[..4], off, f.bits)).Ok?
    ensures FieldAt(HeaderReader(data), fields, i).Ok? ==>
      FieldAt(HeaderReader(data), fields, i).value.0 == Scalar(Convert(f.klass, BitsValue(data[..4], off, f.bits)).value)
  {
    var r := HeaderReader(data);
    assert r.bits.backing == data[..4];
    ScalarFieldAt(r, fields, i, off);
    assert Reader(r.bits, off + Mul(f.bits, 0)) == Reader(r.bits, off);
  }

  /** The first byte and the top three bits of the second: the sync word. */
  lemma HeaderByte0(data: seq<Byte>)
    requires |data| >= 4
    ensures FieldAt(HeaderReader(data), HeaderFields, 0).Ok?
    ensures FieldAt(HeaderReader(data), HeaderFields, 0).value.0 == HeaderValues(DecodeHeader(data).value)[0]
  {
    var bs := data[..4];
    FrameSyncBits(bs);
    assert bs[0] == data[0] && bs[1] == data[1];
    assert HeaderValues(DecodeHeader(data).value)[0] == Scalar(IntV(BitsValue(bs, 0, 11)));
    HeaderFieldIs(data, HeaderFields, 0, Field(11, NoClass, [1]), 0);
  }

  /** Field i of a record laid over four bytes, a scalar f lying inside
      byte k and starting m bits below its top bit, is those bits of the
      byte converted by f's class. */
  lemma HeaderFieldInByte(data: seq<Byte>, fields: seq<Field>, i: nat, f: Field, k: nat, m: nat)
    requires |data| >= 4 && i < |fields| && fields[i] == f && f.shape == [1] && f.bits >= 1
    requires k < 4 && 8 * k + m == TotalBits(fields[..i]) && m + f.bits <= 8
    ensures ByteBits(data[k], m, f.bits) < Pow2(f.bits)
    ensures FieldAt(HeaderReader(data), fields, i).Ok? <==> Convert(f.klass, ByteBits(data[k], m, f.bits)).Ok?
    ensures FieldAt(HeaderReader(data), fields, i).Ok? ==>
      FieldAt(HeaderReader(data), fields, i).value.0 == Scalar(Convert(f.klass, ByteBits(data[k], m, f.bits)).value)
  {
    var bs := data[..4];
    var off := 8 * k + m;
    assert bs[k] == data[k];
    BitsOfByte(bs, off, k, m, f.bits);
    BitsValueBound(bs, off, f.bits);
    assert BitsValue(bs, off, f.bits) == ByteBits(data[k], m, f.bits);
    HeaderFieldIs(data, fields, i, f, off);
  }

  /** Bits 3..4 of the second byte: version. */
  lemma HeaderVersion(data: seq<Byte>)
    requires |data| >= 4
    ensures FieldAt(HeaderReader(data), HeaderFields, 1).Ok?
    ensures FieldAt(HeaderReader(data), HeaderFields, 1).value.0 == HeaderValues(DecodeHeader(data).value)[1]
  {
    var h := DecodeHeader(data).value;
    PrefixBits(1);
    HeaderFieldInByte(data, HeaderFields, 1, Field(2, EnumOf(TwoBitEnum), [1]), 1, 3);
    assert h.version == ByteBits(data[1], 3, 2);
    assert ByteBits(data[1], 3, 2) < 4 by {
      assert Pow2(2) == 4;
    }
    assert Convert(HeaderFields[1].klass, ByteBits(data[1], 3, 2)) == Ok(IntV(h.version));
    assert HeaderValues(h)[1] == Scalar(IntV(h.version));
  }

  /** Bits 5..6 of the second byte: layer. */
  lemma HeaderLayer(data: seq<Byte>)
    requires |data| >= 4
    ensures FieldAt(HeaderReader(data), HeaderFields, 2).Ok?
    ensures FieldAt(HeaderReader(data), HeaderFields, 2).value.0 == HeaderValues(DecodeHeader(data).value)[2]
  {
    var h := DecodeHeader(data).value;
    PrefixBits(2);
    HeaderFieldInByte(data, HeaderFields, 2, Field(2, EnumOf(TwoBitEnum), [1]), 1, 5);
    assert h.layer == ByteBits(data[1], 5, 2);
    assert ByteBits(data[1], 5, 2) < 4 by {
      assert Pow2(2) == 4;
    }
    assert Convert(HeaderFields[2].klass, ByteBits(data[1], 5, 2)) == Ok(IntV(h.layer));
    assert HeaderValues(h)[2] == Scalar(IntV(h.layer));
  }

  /** The last bit of the second byte: protection. */
  lemma HeaderProtection(data: seq<Byte>)
    requires |data| >= 4
    ensures FieldAt(HeaderReader(data), HeaderFields, 3).Ok?
    ensures FieldAt(HeaderReader(data), HeaderFields, 3).value.0 == HeaderValues(DecodeHeader(data).value)[3]
  {
    var h := DecodeHeader(data).value;
    PrefixBits(3);
    HeaderFieldInByte(data, HeaderFields, 3, Field(1, NoClass, [1]), 1, 7);
    assert h.protection == ByteBits(data[1], 7, 1);
    assert Convert(HeaderFields[3].klass, ByteBits(data[1], 7, 1)) == Ok(IntV(h.protection));
    assert HeaderValues(h)[3] == Scalar(IntV(h.protection));
  }

  /** The high half of the third byte: bit-rate index and sample-rate index. */
  lemma HeaderByte2(data: seq<Byte>)
    requires |data| >= 4
    ensures FieldAt(HeaderReader(data), HeaderFields, 4).Ok?
    ensures FieldAt(HeaderReader(data), HeaderFields, 4).value.0 == HeaderValues(DecodeHeader(data).value)[4]
    ensures FieldAt(HeaderReader(data), HeaderFields, 5).Ok?
    ensures FieldAt(HeaderReader(data), HeaderFields, 5).value.0 == HeaderValues(DecodeHeader(data).value)[5]
  {
    var h := DecodeHeader(data).value;
    PrefixBits(4);
    HeaderFieldInByte(data, HeaderFields, 4, Field(4, NoClass, [1]), 2, 0);
    assert h.bitrateIndex == ByteBits(data[2], 0, 4);
    assert Convert(HeaderFields[4].klass, ByteBits(data[2], 0, 4)) == Ok(IntV(h.bitrateIndex));
    assert HeaderValues(h)[4] == Scalar(IntV(h.bitrateIndex));
    PrefixBits(5);
    HeaderFieldInByte(data, HeaderFields, 5, Field(2, NoClass, [1]), 2, 4);
    assert h.sampleRateIndex == ByteBits(data[2], 4, 2);
    assert Convert(HeaderFields[5].klass, ByteBits(data[2], 4, 2)) == Ok(IntV(h.sampleRateIndex));
    assert HeaderValues(h)[5] == Scalar(IntV(h.sampleRateIndex));
  }

  /** The low bits of the third byte: padding and private. */
  lemma HeaderByte2Flags(data: seq<Byte>)
    requires |data| >= 4
    ensures FieldAt(HeaderReader(data), HeaderFields, 6).Ok?
    ensures FieldAt(HeaderReader(data), HeaderFields, 6).value.0 == HeaderValues(DecodeHeader(data).value)[6]
    ensures FieldAt(HeaderReader(data), HeaderFields, 7).Ok?
    ensures FieldAt(HeaderReader(data), HeaderFields, 7).value.0 == HeaderValues(DecodeHeader(data).value)[7]
  {
    var h := DecodeHeader(data).value;
    PrefixBits(6);
    HeaderFieldInByte(data, HeaderFields, 6, Field(1, Boolean, [1]), 2, 6);
    assert h.padding == (ByteBits(data[2], 6, 1) != 0);
    assert Convert(HeaderFields[6].klass, ByteBits(data[2], 6, 1)) == Ok(BoolV(h.padding));
    assert HeaderValues(h)[6] == Scalar(BoolV(h.padding));
    PrefixBits(7);
    HeaderFieldInByte(data, HeaderFields, 7, Field(1, Boolean, [1]), 2, 7);
    assert h.isPrivate == (ByteBits(data[2], 7, 1) != 0);
    assert Convert(HeaderFields[7].klass, ByteBits(data[2], 7, 1)) == Ok(BoolV(h.isPrivate));
    assert HeaderValues(h)[7] == Scalar(BoolV(h.isPrivate));
  }

  /** The high half of the fourth byte: channel mode and mode extension. */
  lemma HeaderByte3(data: seq<Byte>)
    requires |data| >= 4
    ensures FieldAt(HeaderReader(data), HeaderFields, 8).Ok?
    ensures FieldAt(HeaderReader(data), HeaderFields, 8).value.0 == HeaderValues(DecodeHeader(data).value)[8]
    ensures FieldAt(HeaderReader(data), HeaderFields, 9).Ok?
    ensures FieldAt(HeaderReader(data), HeaderFields, 9).value.0 == HeaderValues(DecodeHeader(data).value)[9]
  {
    var h := DecodeHeader(data).value;
    PrefixBits(8);
    HeaderFieldInByte(data, HeaderFields, 8, Field(2, EnumOf(TwoBitEnum), [1]), 3, 0);
    assert h.channelMode == ByteBits(data[3], 0, 2);
    assert ByteBits(data[3], 0, 2) < 4 by {
      assert Pow2(2) == 4;
    }
    assert Convert(HeaderFields[8].klass, ByteBits(data[3], 0, 2)) == Ok(IntV(h.channelMode));
    assert HeaderValues(h)[8] == Scalar(IntV(h.channelMode));
    PrefixBits(9);
    HeaderFieldInByte(data, HeaderFields, 9, Field(2, NoClass, [1]), 3, 2);
    assert h.modeExtension == ByteBits(data[3], 2, 2);
    assert Convert(HeaderFields[9].klass, ByteBits(data[3], 2, 2)) == Ok(IntV(h.modeExtension));
    assert HeaderValues(h)[9] == Scalar(IntV(h.modeExtension));
  }

  /** The fourth byte's copyright and original bits. */
  lemma HeaderByte3Flags(data: seq<Byte>)
    requires |data| >= 4
    ensures FieldAt(HeaderReader(data), HeaderFields, 10).Ok?
    ensures FieldAt(HeaderReader(data), HeaderFields, 10).value.0 == HeaderValues(DecodeHeader(data).value)[10]
    ensures FieldAt(HeaderReader(data), HeaderFields, 11).Ok?
    ensures FieldAt(HeaderReader(data), HeaderFields, 11).value.0 == HeaderValues(DecodeHeader(data).value)[11]
  {
    var h := DecodeHeader(data).value;
    PrefixBits(10);
    HeaderFieldInByte(data, HeaderFields, 10, Field(1, Boolean, [1]), 3, 4);
    assert h.copyright == (ByteBits(data[3], 4, 1) != 0);
    assert Convert(HeaderFields[10].klass, ByteBits(data[3], 4, 1)) == Ok(BoolV(h.copyright));
    assert HeaderValues(h)[10] == Scalar(BoolV(h.copyright));
    PrefixBits(11);
    HeaderFieldInByte(data, HeaderFields, 11, Field(1, Boolean, [1]), 3, 5);
    assert h.original == (ByteBits(data[3], 5, 1) != 0);
    assert Convert(HeaderFields[11].klass, ByteBits(data[3], 5, 1)) == Ok(BoolV(h.original));
    assert HeaderValues(h)[11] == Scalar(BoolV(h.original));
  }

  /** The last two bits of the fourth byte: emphasis. */
  lemma HeaderEmphasis(data: seq<Byte>)
    requires |data| >= 4
    ensures FieldAt(HeaderReader(data), HeaderFields, 12).Ok?
    ensures FieldAt(HeaderReader(data), HeaderFields, 12).value.0 == HeaderValues(DecodeHeader(data).value)[12]
  {
    var h := DecodeHeader(data).value;
    PrefixBits(12);
    HeaderFieldInByte(data, HeaderFields, 12, Field(2, NoClass, [1]), 3, 6);
    assert h.emphasis == ByteBits(data[3], 6, 2);
    assert Convert(HeaderFields[12].klass, ByteBits(data[3], 6, 2)) == Ok(IntV(h.emphasis));
    assert HeaderValues(h)[12] == Scalar(IntV(h.emphasis));
  }

  /** The 11 sync bits are all of the first byte and the top three bits of
      the second. */
  lemma FrameSyncBits(bs: seq<Byte>)
    requires |bs| == 4
    ensures BitsValue(bs, 0, 11) == (bs[0] as nat) * 8 + ByteBits(bs[1], 0, 3)
  {
    BitsValueSplit(bs, 0, 8, 8, 3, 11);
    BitsOfByte(bs, 0, 0, 0, 8);
    ByteBitsAll(bs[0]);
    BitsOfByte(bs, 8, 1, 0, 3);
    ShlIsMul(BitsValue(bs, 0, 8), 3);
  }

  /** The generic decode of the header is the field loop from the header
      reader, and its size is four bytes. */
  lemma HeaderRecord(data: seq<Byte>)
    ensures Bitfield.Decode(HeaderFields, FromBuffer(data)).Ok? <==> DecodeFields(HeaderReader(data), HeaderFields).Ok?
    ensures Bitfield.Decode(HeaderFields, FromBuffer(data)).Ok? ==>
      Bitfield.Decode(HeaderFields, FromBuffer(data)).value.size == 4 &&
      Bitfield.Decode(HeaderFields, FromBuffer(data)).value.values == DecodeFields(HeaderReader(data), HeaderFields).value.0
  {
    HeaderWidth();
  }

  /** Fewer than four bytes: the last field, `emphasis`, runs off the end. */
  lemma HeaderTooShort(data: seq<Byte>)
    requires |data| < 4
    ensures !DecodeFields(HeaderReader(data), HeaderFields).Ok?
  {
    var r := HeaderReader(data);
    DecodeFieldsOk(r, HeaderFields);
    PrefixBits(12);
    ScalarFieldAt(r, HeaderFields, 12, 30);
    assert Reader(r.bits, 30 + Mul(2, 0)) == Reader(r.bits, 30);
    assert !FieldAt(r, HeaderFields, 12).Ok?;
  }

  /** Four bytes or more: field i decodes to the value `DecodeHeader` gives
      it. */
  lemma HeaderFieldEach(data: seq<Byte>, i: nat)
    requires |data| >= 4 && i < |HeaderFields|
    ensures FieldAt(HeaderReader(data), HeaderFields, i).Ok?
    ensures FieldAt(HeaderReader(data), HeaderFields, i).value.0 == HeaderValues(DecodeHeader(data).value)[i]
  {
    if i == 0 {
      HeaderByte0(data);
    } else if i == 1 {
      HeaderVersion(data);
    } else if i == 2 {
      HeaderLayer(data);
    } else if i == 3 {
      HeaderProtection(data);
    } else if i < 6 {
      HeaderByte2(data);
      assert i == 4 || i == 5;
    } else if i < 8 {
      HeaderByte2Flags(data);
      assert i == 6 || i == 7;
    } else if i < 10 {
      HeaderByte3(data);
      assert i == 8 || i == 9;
    } else if i < 12 {
      HeaderByte3Flags(data);
      assert i == 10 || i == 11;
    } else {
      HeaderEmphasis(data);
    }
  }

  /** Four bytes or more: every field decodes, to the value `DecodeHeader`
      gives it. */
  lemma HeaderFields4(data: seq<Byte>)
    requires |data| >= 4
    ensures DecodeFields(HeaderReader(data), HeaderFields).Ok?
    ensures DecodeFields(HeaderReader(data), HeaderFields).value.0 == HeaderValues(DecodeHeader(data).value)
  {
    var r := HeaderReader(data);
    var hv := HeaderValues(DecodeHeader(data).value);
    forall i | 0 <= i < |HeaderFields|
      ensures FieldAt(r, HeaderFields, i).Ok? && FieldAt(r, HeaderFields, i).value.0 == hv[i]
    {
      HeaderFieldEach(data, i);
    }
    DecodeFieldsOk(r, HeaderFields);
    DecodeFieldsValues(r, HeaderFields);
    var vals := DecodeFields(r, HeaderFields).value.0;
    assert forall i :: 0 <= i < |HeaderFields| ==> vals[i] == hv[i];
  }

  /** `DecodeHeader` is what `BitfieldBase` decodes with the declared fields:
      the same failure, the same 4-byte size, and the same value for every
      field. */
  lemma HeaderIsBitfield(data: seq<Byte>)
    ensures Bitfield.Decode(HeaderFields, FromBuffer(data)).Ok? <==> DecodeHeader(data).Ok?
    ensures DecodeHeader(data).Ok? ==>
      var rec := Bitfield.Decode(HeaderFields, FromBuffer(data)).value;
      rec.size == DecodeHeader(data).value.size && rec.values == HeaderValues(DecodeHeader(data).value)
  {
    HeaderRecord(data);
    if |data| < 4 {
      HeaderTooShort(data);
    } else {
      HeaderFields4(data);
    }
  }

  /** `MP3FrameHeader.has_frame_sync(buf)`: the first byte is FF and the top
      three bits of the second are set. The second byte is only looked at
      when the first is FF, and a missing byte is an index failure. */
  function HasFrameSync(buf: seq<Byte>): (r: Result<bool>)
    ensures r.Err? <==> |buf| == 0 || (buf[0] == 0xFF && |buf| < 2)
    ensures r.Err? ==> r.error == TruncatedBuffer
    ensures |buf| > 0 && buf[0] != 0xFF ==> r == Ok(false)
  {
    if |buf| == 0 then Err(TruncatedBuffer)
    else if buf[0] != 0xFF then Ok(false)
    else if |buf| < 2 then Err(TruncatedBuffer)
    else Ok(Mask(Shr(buf[1], 5), 3) == 7)
  }

  /** The top three bits of a byte, as the header decodes them and as the
      sync test computes them. */
  lemma TopThreeBits(b: Byte)
    ensures ByteBits(b, 0, 3) == Mask(Shr(b, 5), 3) == Shr(b, 5)
    ensures Shr(b, 5) == 7 <==> b >= 0xE0
  {
    ByteBitsAll(b);
    Pow2Byte();
    ShrIsDiv(b, 5);
    MaskIsMod(Shr(b, 5), 3);
    DivModUnique(Shr(b, 5), 8, 0, Shr(b, 5));
  }

  /** On a whole header, the sync test holds exactly when the 11-bit
      `frame_sync` field is all ones. */
  lemma FrameSyncIsField(buf: seq<Byte>)
    requires |buf| >= 4
    ensures HasFrameSync(buf) == Ok(true) <==> DecodeHeader(buf).value.frameSync == 0x7FF
  {
    TopThreeBits(buf[1]);
    var t := ByteBits(buf[1], 0, 3);
    MaskBound(Shr(buf[1], 5), 3);
    Pow2Byte();
    assert t < 8;
    assert DecodeHeader(buf).value.frameSync == (buf[0] as nat) * 8 + t;
  }

  /** `bitrate_tbl`: bit rates in kbit/s. Rows 0 to 2 are MPEG-1 layers I, II
      and III; row 3 is MPEG-2 and 2.5 layer I; row 4 is MPEG-2 and 2.5
      layers II and III. Index 0 is the free format. */
  const BitrateTable: seq<seq<nat>> := [
    [0, 32, 64, 96, 128, 160, 192, 224, 256, 288, 320, 352, 384, 416, 448],
    [0, 32, 48, 56, 64, 80, 96, 112, 128, 160, 192, 224, 256, 320, 384],
    [0, 32, 40, 48, 56, 64, 80, 96, 112, 128, 160, 192, 224, 256, 320],
    [0, 32, 48, 56, 64, 80, 96, 112, 128, 144, 160, 176, 192, 224, 256],
    [0, 8, 16, 24, 32, 40, 48, 56, 64, 80, 96, 112, 128, 144, 160]
  ]

  /** The table row the `bitrate` property selects. MPEG-1 needs one of the
      three layers; MPEG-2 and 2.5 take row 3 for layer I and row 4 for
      anything else, the reserved layer included; the reserved version has
      no row. */
  function BitrateRow(version: nat, layer: nat): (r: Option<nat>)
    ensures r.Some? ==> r.value < |BitrateTable|
    ensures r.None? <==> version == VersionReserved || version > 3 || (version == Version1 && (layer == LayerReserved || layer > 3))
    ensures version == Version1 && r.Some? ==> r.value == Layer1 - layer
    ensures (version == Version2 || version == Version25) ==> r == Some(if layer == Layer1 then 3 else 4)
  {
    if version == Version1 then
      if layer == Layer1 then Some(0)
      else if layer == Layer2 then Some(1)
      else if layer == Layer3 then Some(2)
      else None
    else if version == Version2 || version == Version25 then
      if layer == Layer1 then Some(3) else Some(4)
    else None
  }

  /** The `bitrate` property, in kbit/s: index 15 is refused before the row
      is chosen, a header with no row fails on the missing row, and an index
      past the row fails on the lookup. */
  function Bitrate(h: Header): (r: Result<nat>)
    ensures h.bitrateIndex == 15 ==> r == Err(InvalidTableIndex)
    ensures h.bitrateIndex != 15 && BitrateRow(h.version, h.layer).None? ==> r == Err(NoTableRow)
    ensures r.Ok? <==> h.bitrateIndex < 15 && BitrateRow(h.version, h.layer).Some?
    ensures r.Ok? ==> r.value == BitrateTable[BitrateRow(h.version, h.layer).value][h.bitrateIndex]
  {
    if h.bitrateIndex == 15 then Err(InvalidTableIndex)
    else
      match BitrateRow(h.version, h.layer)
      case None => Err(NoTableRow)
      case Some(row) =>
        if h.bitrateIndex >= |BitrateTable[row]| then Err(InvalidTableIndex)
        else Ok(BitrateTable[row][h.bitrateIndex])
  }

  /** Every row is strictly increasing, starts at 0 (free format), and holds
      multiples of 8 kbit/s up to 448. */
  lemma BitrateTableShape()
    ensures forall row, i :: 0 <= row < 5 && 0 <= i < 14 ==> BitrateTable[row][i] < BitrateTable[row][i + 1]
    ensures forall row, i :: 0 <= row < 5 && 0 <= i < 15 ==> BitrateTable[row][i] % 8 == 0 && BitrateTable[row][i] <= 448
    ensures forall row :: 0 <= row < 5 ==> |BitrateTable[row]| == 15 && BitrateTable[row][0] == 0
  {
  }

  /** Within one row, a higher index is a higher bit rate: the table is
      ordered, and the free format (index 0) is the lowest. */
  lemma BitrateMonotone(h1: Header, h2: Header)
    requires h1.version == h2.version && h1.layer == h2.layer
    requires Bitrate(h1).Ok? && Bitrate(h2).Ok?
    ensures h1.bitrateIndex < h2.bitrateIndex <==> Bitrate(h1).value < Bitrate(h2).value
    ensures h1.bitrateIndex == 0 ==> Bitrate(h1).value == 0
    ensures Bitrate(h1).value % 8 == 0 && Bitrate(h1).value <= 448
  {
    BitrateTableShape();
    var row := BitrateRow(h1.version, h1.layer).value;
    var t := BitrateTable[row];
    forall i, j | 0 <= i < j < 15
      ensures t[i] < t[j]
    {
      RowIncreasing(t, i, j);
    }
  }

  /** A row whose neighbours increase is increasing. */
  lemma {:induction false} RowIncreasing(t: seq<nat>, i: nat, j: nat)
    requires |t| == 15 && forall k :: 0 <= k < 14 ==> t[k] < t[k + 1]
    requires i < j < 15
    ensures t[i] < t[j]
    decreases j - i
  {
    if i + 1 < j {
      RowIncreasing(t, i + 1, j);
    }
  }

  /** Free-format headers, and the MPEG-1 and MPEG-2 layer III rates at
      index 9. */
  lemma BitrateExamples(h: Header)
    ensures h.bitrateIndex == 9 && h.version == Version1 && h.layer == Layer3 ==> Bitrate(h) == Ok(128)
    ensures h.bitrateIndex == 9 && h.version == Version2 && h.layer == Layer3 ==> Bitrate(h) == Ok(80)
    ensures h.bitrateIndex == 14 && h.version == Version1 && h.layer == Layer1 ==> Bitrate(h) == Ok(448)
    ensures h.version == VersionReserved && h.bitrateIndex < 15 ==> Bitrate(h) == Err(NoTableRow)
  {
  }

  /** The base sample rates of `sample_rate`, in Hz, by index. */
  const BaseRates: seq<nat> := [44100, 48000, 32000]

  /** The `sample_rate` property, in Hz: index 3 is refused; MPEG 2 halves
      the base rate and MPEG 2.5 quarters it, both exactly; the reserved
      version keeps it. */
  function SampleRate(h: Header): (r: Result<nat>)
    ensures r.Ok? <==> h.sampleRateIndex < 3
    ensures r.Err? ==> r.error == InvalidTableIndex
    ensures r.Ok? ==> 8000 <= r.value <= 48000
    ensures r.Ok? && h.version == Version1 ==> r.value in {44100, 48000, 32000}
    ensures r.Ok? && h.version == Version2 ==> r.value in {22050, 24000, 16000}
    ensures r.Ok? && h.version == Version25 ==> r.value in {11025, 12000, 8000}
    ensures r.Ok? && h.version == Version2 ==> 2 * r.value == BaseRates[h.sampleRateIndex]
    ensures r.Ok? && h.version == Version25 ==> 4 * r.value == BaseRates[h.sampleRateIndex]
    ensures r.Ok? && h.version != Version2 && h.version != Version25 ==> r.value == BaseRates[h.sampleRateIndex]
  {
    if h.sampleRateIndex >= 3 then Err(InvalidTableIndex)
    else
      var res := BaseRates[h.sampleRateIndex];
      if h.version == Version2 then Ok(res / 2)
      else if h.version == Version25 then Ok(res / 4)
      else Ok(res)
  }

  /** For one sample-rate index, MPEG 1 runs at twice the MPEG 2 rate and at
      four times the MPEG 2.5 rate, with nothing lost to rounding. */
  lemma SampleRateScales(h1: Header, h2: Header, h25: Header)
    requires h1.sampleRateIndex == h2.sampleRateIndex == h25.sampleRateIndex < 3
    requires h1.version == Version1 && h2.version == Version2 && h25.version == Version25
    ensures SampleRate(h1).value == 2 * SampleRate(h2).value == 4 * SampleRate(h25).value
    ensures SampleRate(h1).value == BaseRates[h1.sampleRateIndex]
  {
  }

  /** The padding slot: one byte (four for layer I) when `padding` is set. */
  function PadSlot(h: Header): (p: nat)
    ensures p <= 1 && (p == 1 <==> h.padding)
  {
    if h.padding then 1 else 0
  }

  /** `int(x / d)` for positive operands: the largest q with q * d <= x. */
  function FloorQuotient(x: nat, d: nat): (q: nat)
    requires d > 0
    ensures q * d <= x < (q + 1) * d
  {
    x / d
  }

  /** The `frame_length` property, in bytes: the bit rate is looked up
      first, so its failure wins over the sample rate's. Layer I counts
      4-byte slots, `12000 * bitrate / sample_rate` of them plus the
      padding slot; the other layers count bytes, `144000 * bitrate /
      sample_rate` plus the padding byte. Both quotients are rounded down,
      which is the float division and `int` of the source for positive
      operands. */
  function FrameLength(h: Header): (r: Result<nat>)
    ensures Bitrate(h).Err? ==> r == Err(Bitrate(h).error)
    ensures Bitrate(h).Ok? && SampleRate(h).Err? ==> r == Err(SampleRate(h).error)
    ensures r.Ok? <==> Bitrate(h).Ok? && SampleRate(h).Ok?
    ensures r.Ok? && h.layer == Layer1 ==>
      var q := r.value / 4 - PadSlot(h);
      r.value % 4 == 0 && r.value >= 4 * PadSlot(h) &&
      q * SampleRate(h).value <= 12000 * Bitrate(h).value < (q + 1) * SampleRate(h).value
    ensures r.Ok? && h.layer != Layer1 ==>
      var q := r.value - PadSlot(h);
      r.value >= PadSlot(h) &&
      q * SampleRate(h).value <= 144000 * Bitrate(h).value < (q + 1) * SampleRate(h).value
  {
    var br :- Bitrate(h);
    var sr :- SampleRate(h);
    if h.layer == Layer1 then
      var q := FloorQuotient(12 * br * 1000, sr);
      assert ((q + PadSlot(h)) * 4) / 4 - PadSlot(h) == q;
      Ok((q + PadSlot(h)) * 4)
    else
      Ok(FloorQuotient(144 * br * 1000, sr) + PadSlot(h))
  }

  /** The rounded-down quotient is the only one the bounds allow. */
  lemma FloorUnique(x: nat, d: nat, q: nat)
    requires d > 0 && q * d <= x < (q + 1) * d
    ensures q == x / d
  {
    DivModUnique(x, d, q, x - q * d);
  }

  /** The `n_channels` property: one channel in single-channel mode, two in
      the three stereo modes. */
  function NChannels(h: Header): (n: nat)
    ensures n == 1 || n == 2
    ensures n == 1 <==> h.channelMode == SingleChannel
  {
    if h.channelMode == SingleChannel then 1 else 2
  }

  /** Frame lengths of common headers: MPEG-1 layer III at 128 kbit/s and
      44100 Hz gives 417-byte frames, 418 with padding; MPEG-1 layer I at
      32 kbit/s and 48000 Hz gives eight 4-byte slots. */
  lemma FrameLengthExamples(h: Header)
    requires h.version == Version1 && h.layer == Layer3 && h.bitrateIndex == 9 && h.sampleRateIndex == 0
    ensures FrameLength(h) == Ok(if h.padding then 418 else 417)
  {
    FloorUnique(144000 * 128, 44100, 417);
  }

  lemma LayerOneExample(h: Header)
    requires h.version == Version1 && h.layer == Layer1 && h.bitrateIndex == 1 && h.sampleRateIndex == 1
    ensures FrameLength(h) == Ok(if h.padding then 36 else 32)
  {
    FloorUnique(12000 * 32, 48000, 8);
  }

  /** The side-information layouts: `main_data_begin` (9 bits), `p` private
      bits, and `scale_factor_selection_info`, one bit per scale-factor band
      group, in shape (c, 4) for c channels. */
  function SideInfoLayout(p: nat, c: nat): (fields: seq<Field>)
    ensures |fields| == 3
  {
    [Field(9, NoClass, [1]), Field(p, NoClass, [1]), Field(1, NoClass, [c, 4])]
  }

  /** The side-information layouts are the declarations `Field(9)`,
      `Field(p)` and `Field(1, shape=(c, 4))`. */
  lemma SideInfoDeclared(p: nat, c: nat)
    ensures SideInfoLayout(p, c) ==
      [MakeField(9, NoClass, Dim(1)), MakeField(p, NoClass, Dim(1)), MakeField(1, NoClass, Dims([c, 4]))]
  {
  }

  /** `MP3SideInfoMono`: 5 private bits and a 1 x 4 selection array. */
  const SideInfoMono: seq<Field> := SideInfoLayout(5, 1)

  /** `MP3SideInfoStereo`: 3 private bits and a 2 x 4 selection array. */
  const SideInfoStereo: seq<Field> := SideInfoLayout(3, 2)

  /** The widths of a side-information layout: 9 bits, then p, then 4c; the
      selection array holds 4c one-bit values. */
  lemma LayoutWidths(p: nat, c: nat)
    ensures TotalBits(SideInfoLayout(p, c)[..1]) == 9
    ensures TotalBits(SideInfoLayout(p, c)[..2]) == 9 + p
    ensures NElems(SideInfoLayout(p, c)[2]) == 4 * c
    ensures TotalBits(SideInfoLayout(p, c)) == 9 + p + 4 * c
  {
    var fields := SideInfoLayout(p, c);
    ProductOne(1);
    ProductOne(4);
    ProductCons([c, 4]);
    assert [c, 4][1..] == [4];
    MulIsTimes(4, c);
    MulOne(4 * c);
    assert Mul(9, 1) == 9 && Mul(p, 1) == p;
    assert fields[..1][..0] == [];
    assert fields[..2][..1] == fields[..1];
    assert fields[..3][..2] == fields[..2];
    assert fields[..3] == fields;
  }

  /** Element i of the selection array of a layout read from `r` is the
      single bit at 9 + p + i. */
  lemma SelectionElement(r: Reader, p: nat, i: nat)
    requires r.offset == 0
    ensures Element(Reader(r.bits, 9 + p), 1, NoClass, i) ==
      (if CanRead(Reader(r.bits, 9 + p + i), 1)
       then Ok(IntV(BitsValue(r.bits.backing, r.bits.bitOffset + 9 + p + i, 1)))
       else Err(TruncatedBuffer))
  {
    MulOne(i);
  }

  /** The first field, `main_data_begin`: the 9 bits at the start. */
  lemma LayoutField0(r: Reader, p: nat, c: nat)
    requires r.offset == 0 && r.bits.bitOffset == 0
    ensures FieldAt(r, SideInfoLayout(p, c), 0).Ok? <==> 9 <= 8 * |r.bits.backing|
    ensures FieldAt(r, SideInfoLayout(p, c), 0).Ok? ==>
      FieldAt(r, SideInfoLayout(p, c), 0).value.0 == Scalar(IntV(BitsValue(r.bits.backing, 0, 9)))
  {
    LayoutWidths(p, c);
    ScalarFieldAt(r, SideInfoLayout(p, c), 0, 0);
    assert Reader(r.bits, 0 + Mul(9, 0)) == Reader(r.bits, 0);
  }

  /** The second field, `private_bits`: the p bits after the first nine. */
  lemma LayoutField1(r: Reader, p: nat, c: nat)
    requires r.offset == 0 && r.bits.bitOffset == 0 && p >= 1
    ensures FieldAt(r, SideInfoLayout(p, c), 1).Ok? <==> 9 + p <= 8 * |r.bits.backing|
    ensures FieldAt(r, SideInfoLayout(p, c), 1).Ok? ==>
      FieldAt(r, SideInfoLayout(p, c), 1).value.0 == Scalar(IntV(BitsValue(r.bits.backing, 9, p)))
  {
    LayoutWidths(p, c);
    ScalarFieldAt(r, SideInfoLayout(p, c), 1, 9);
    assert Reader(r.bits, 9 + Mul(p, 0)) == Reader(r.bits, 9);
  }

  /** The third field, `scale_factor_selection_info`: 4c single bits after
      the first 9 + p, in shape (c, 4). */
  lemma LayoutField2(r: Reader, p: nat, c: nat)
    requires r.offset == 0 && r.bits.bitOffset == 0 && c >= 1
    ensures FieldAt(r, SideInfoLayout(p, c), 2).Ok? <==> 9 + p + 4 * c <= 8 * |r.bits.backing|
    ensures FieldAt(r, SideInfoLayout(p, c), 2).Ok? ==>
      var v := FieldAt(r, SideInfoLayout(p, c), 2).value.0;
      v.Array? && HasShape(v.a, [c, 4]) && |Flatten(v.a)| == 4 * c &&
      forall i :: 0 <= i < 4 * c ==> Flatten(v.a)[i] == IntV(BitsValue(r.bits.backing, 9 + p + i, 1))
  {
    var fields := SideInfoLayout(p, c);
    LayoutWidths(p, c);
    var r2 := Reader(r.bits, 9 + p);
    assert FieldAt(r, fields, 2) == DecodeField(r2, fields[2]);
    ArrayField(r2, fields[2]);
    forall i | 0 <= i < 4 * c
      ensures Element(r2, 1, NoClass, i) ==
        (if 9 + p + i + 1 <= 8 * |r.bits.backing|
         then Ok(IntV(BitsValue(r.bits.backing, 9 + p + i, 1)))
         else Err(TruncatedBuffer))
    {
      SelectionElement(r, p, i);
    }
    if 9 + p + 4 * c > 8 * |r.bits.backing| {
      assert !Element(r2, 1, NoClass, 4 * c - 1).Ok?;
    }
  }

  /** The reader a side-information record starts from: the first `size`
      bytes of the buffer. */
  lemma LayoutReader(buf: seq<Byte>, size: nat)
    ensures StartReader(FromBuffer(buf), size).offset == 0
    ensures StartReader(FromBuffer(buf), size).bits.bitOffset == 0
    ensures |StartReader(FromBuffer(buf), size).bits.backing| == Min(|buf|, size)
    ensures size <= |buf| ==> StartReader(FromBuffer(buf), size).bits.backing == buf[..size]
  {
  }

  /** The field loop over a side-information layout succeeds exactly when
      the reader's bytes hold all of its 9 + p + 4c bits. */
  lemma LayoutFieldsOk(r: Reader, p: nat, c: nat)
    requires r.offset == 0 && r.bits.bitOffset == 0 && p >= 1 && c >= 1
    ensures DecodeFields(r, SideInfoLayout(p, c)).Ok? <==> 9 + p + 4 * c <= 8 * |r.bits.backing|
  {
    var fields := SideInfoLayout(p, c);
    DecodeFieldsOk(r, fields);
    LayoutField0(r, p, c);
    LayoutField1(r, p, c);
    LayoutField2(r, p, c);
    if 9 + p + 4 * c <= 8 * |r.bits.backing| {
      forall i | 0 <= i < 3 ensures FieldAt(r, fields, i).Ok? {
        assert i == 0 || i == 1 || i == 2;
      }
    }
  }

  /** A side-information layout decoded from a byte buffer succeeds exactly
      when the bytes the record spans hold all of its bits. */
  lemma LayoutDecodeOk(buf: seq<Byte>, p: nat, c: nat, bits: nat, size: nat)
    requires p >= 1 && c >= 1 && bits == 9 + p + 4 * c && size == (bits + 7) / 8
    ensures Bitfield.Decode(SideInfoLayout(p, c), FromBuffer(buf)).Ok? <==> bits <= 8 * Min(|buf|, size)
  {
    LayoutWidths(p, c);
    DecodeSized(SideInfoLayout(p, c), FromBuffer(buf), bits, size);
    LayoutReader(buf, size);
    LayoutFieldsOk(StartReader(FromBuffer(buf), size), p, c);
  }

  /** The fields of a decoded layout are the bits at their offsets, most
      significant first, and the selection array has shape (c, 4). */
  lemma LayoutDecodeValues(buf: seq<Byte>, p: nat, c: nat)
    requires p >= 1 && c >= 1
    requires Bitfield.Decode(SideInfoLayout(p, c), FromBuffer(buf)).Ok?
    ensures var size := (9 + p + 4 * c + 7) / 8;
      var rec := Bitfield.Decode(SideInfoLayout(p, c), FromBuffer(buf)).value;
      size <= |buf| && rec.size == size &&
      rec.values[0] == Scalar(IntV(BitsValue(buf[..size], 0, 9))) &&
      rec.values[1] == Scalar(IntV(BitsValue(buf[..size], 9, p))) &&
      rec.values[2].Array? && HasShape(rec.values[2].a, [c, 4]) && |Flatten(rec.values[2].a)| == 4 * c &&
      forall i :: 0 <= i < 4 * c ==> Flatten(rec.values[2].a)[i] == IntV(BitsValue(buf[..size], 9 + p + i, 1))
  {
    var fields := SideInfoLayout(p, c);
    var size := (9 + p + 4 * c + 7) / 8;
    LayoutWidths(p, c);
    LayoutDecodeOk(buf, p, c, 9 + p + 4 * c, size);
    DecodeSized(fields, FromBuffer(buf), 9 + p + 4 * c, size);
    var r := StartReader(FromBuffer(buf), size);
    LayoutReader(buf, size);
    DecodeFieldsValues(r, fields);
    LayoutField0(r, p, c);
    LayoutField1(r, p, c);
    LayoutField2(r, p, c);
  }

  /** The log of a decoded layout: each field at the bit where the ones
      before it end, with its whole width. */
  lemma LayoutDecodeLog(buf: seq<Byte>, p: nat, c: nat)
    requires Bitfield.Decode(SideInfoLayout(p, c), FromBuffer(buf)).Ok?
    ensures Bitfield.Decode(SideInfoLayout(p, c), FromBuffer(buf)).value.log ==
      [LogEntry(0, 9), LogEntry(9, p), LogEntry(9 + p, 4 * c)]
  {
    var fields := SideInfoLayout(p, c);
    var r := StartReader(FromBuffer(buf), (TotalBits(fields) + 7) / 8);
    DecodeLog(fields, FromBuffer(buf));
    LayoutLogEntries(r, p, c);
    var log := Bitfield.Decode(fields, FromBuffer(buf)).value.log;
    assert |log| == 3;
    assert log[0] == LogAt(r, fields, 0) && log[1] == LogAt(r, fields, 1) && log[2] == LogAt(r, fields, 2);
  }

  /** The log entries of the three fields, read from offset 0. */
  lemma LayoutLogEntries(r: Reader, p: nat, c: nat)
    requires r.offset == 0
    ensures LogAt(r, SideInfoLayout(p, c), 0) == LogEntry(0, 9)
    ensures LogAt(r, SideInfoLayout(p, c), 1) == LogEntry(9, p)
    ensures LogAt(r, SideInfoLayout(p, c), 2) == LogEntry(9 + p, 4 * c)
  {
    LayoutWidths(p, c);
    ProductOne(1);
    assert Mul(9, 1) == 9 && Mul(p, 1) == p;
    MulOne(4 * c);
  }

  /** Both side-information layouts span three bytes: 18 bits for one
      channel, 20 for two. A layout decodes from a buffer exactly when the
      buffer holds those three bytes. */
  lemma SideInfoSizes(buf: seq<Byte>)
    ensures TotalBits(SideInfoMono) == 18 && TotalBits(SideInfoStereo) == 20
    ensures Bitfield.Decode(SideInfoMono, FromBuffer(buf)).Ok? <==> |buf| >= 3
    ensures Bitfield.Decode(SideInfoStereo, FromBuffer(buf)).Ok? <==> |buf| >= 3
    ensures Bitfield.Decode(SideInfoMono, FromBuffer(buf)).Ok? ==> Bitfield.Decode(SideInfoMono, FromBuffer(buf)).value.size == 3
    ensures Bitfield.Decode(SideInfoStereo, FromBuffer(buf)).Ok? ==> Bitfield.Decode(SideInfoStereo, FromBuffer(buf)).value.size == 3
  {
    LayoutWidths(5, 1);
    LayoutWidths(3, 2);
    LayoutDecodeOk(buf, 5, 1, 18, 3);
    LayoutDecodeOk(buf, 3, 2, 20, 3);
  }

  /** Either side-information layout decodes from a buffer exactly when the
      buffer holds three bytes, and then spans those three. */
  lemma SideInfoSize(buf: seq<Byte>, layout: seq<Field>)
    requires layout == SideInfoMono || layout == SideInfoStereo
    ensures Bitfield.Decode(layout, FromBuffer(buf)).Ok? <==> |buf| >= 3
    ensures Bitfield.Decode(layout, FromBuffer(buf)).Ok? ==> Bitfield.Decode(layout, FromBuffer(buf)).value.size == 3
  {
    SideInfoSizes(buf);
  }

  /** The optional CRC after the header: when `protection` is 0, a big-endian
      16-bit value at the end of the header, and the side information starts
      two bytes later; otherwise it starts right after the header. The code
      stores the CRC as the one-element tuple `struct.unpack_from` returns;
      the model keeps the integer inside it. */
  function CrcPart(h: Header, data: seq<Byte>): (r: Result<(Option<nat>, nat)>)
    requires h.size <= |data|
    ensures r.Ok? ==> r.value.1 <= |data|
    ensures h.protection != 0 ==> r == Ok((None, h.size))
    ensures h.protection == 0 ==> (r.Ok? <==> h.size + 2 <= |data|)
    ensures h.protection == 0 && r.Ok? ==> r.value == (Some(U16(data, h.size)), h.size + 2)
  {
    if h.protection == 0 then
      var v :- Unpack(BE16, data, h.size);
      BigEndianFixed(data, h.size);
      Ok((Some(if v.Num? then v.n else 0), h.size + 2))
    else Ok((None, h.size))
  }

  /** A decoded frame: its header, the CRC when the header announces one,
      the byte offset of the side information, the side information, and
      the number of bytes read. `sideInfoOffset` and `size` are the values
      the constructor's local `offset` takes before and after the side
      information; the code does not keep them as attributes. */
  datatype Frame = Frame(header: Header, crc: Option<nat>, sideInfoOffset: nat,
                         sideInfo: Bitfield.Record, size: nat)

  /** `MP3Frame(data)`: the header, the CRC if present, then the mono side
      information for a single channel and the stereo one otherwise. */
  function DecodeFrame(data: seq<Byte>): (r: Result<Frame>)
    ensures r.Ok? ==> |data| >= 4 && r.value.header == DecodeHeader(data).value
    ensures r.Ok? ==> r.value.sideInfoOffset == (if r.value.header.protection == 0 then 6 else 4)
    ensures r.Ok? ==> r.value.sideInfoOffset <= |data|
    ensures r.Ok? ==> (r.value.crc.Some? <==> r.value.header.protection == 0)
    ensures r.Ok? && r.value.crc.Some? ==> r.value.crc.value == U16(data, 4)
    ensures r.Ok? ==> r.value.size == r.value.sideInfoOffset + r.value.sideInfo.size
  {
    var header :- DecodeHeader(data);
    var crc :- CrcPart(header, data);
    var layout := if NChannels(header) == 1 then SideInfoMono else SideInfoStereo;
    var side :- Bitfield.Decode(layout, FromBuffer(data[crc.1..]));
    Ok(Frame(header, crc.0, crc.1, side, crc.1 + side.size))
  }

  /** Where the side information of a frame starts: byte 4, or byte 6 after
      a 2-byte CRC. */
  lemma FrameOffsets(data: seq<Byte>)
    ensures DecodeFrame(data).Ok? <==>
      |data| >= 4 && |data| >= (if DecodeHeader(data).value.protection == 0 then 6 else 4) + 3
    ensures DecodeFrame(data).Ok? ==>
      var f := DecodeFrame(data).value;
      f.header == DecodeHeader(data).value &&
      f.sideInfoOffset == (if f.header.protection == 0 then 6 else 4) &&
      (f.crc.Some? <==> f.header.protection == 0) &&
      (f.crc.Some? ==> f.crc.value == U16(data, 4)) &&
      f.size == f.sideInfoOffset + 3
  {
    if |data| >= 4 {
      var h := DecodeHeader(data).value;
      var crc := CrcPart(h, data);
      if crc.Ok? {
        var at := crc.value.1;
        var layout := if NChannels(h) == 1 then SideInfoMono else SideInfoStereo;
        SideInfoSize(data[at..], layout);
      }
    }
  }

  /** The side information of a decoded frame is read from the three bytes
      at byte 6 after a CRC and at byte 4 otherwise: `main_data_begin` is
      their first 9 bits, `private_bits` the next 5 (mono) or 3 (stereo), and
      the selection array the one-bit values after those, row by row. */
  lemma FrameSideInfo(data: seq<Byte>)
    ensures DecodeFrame(data).Ok? ==>
      var f := DecodeFrame(data).value;
      var at := if f.header.protection == 0 then 6 else 4;
      var c := NChannels(f.header);
      var p := if c == 1 then 5 else 3;
      SideInfoAt(data, at, p, c, f.sideInfo)
  {
    if DecodeFrame(data).Ok? {
      var f := DecodeFrame(data).value;
      var c := NChannels(f.header);
      var p := if c == 1 then 5 else 3;
      assert Bitfield.Decode(SideInfoLayout(p, c), FromBuffer(data[f.sideInfoOffset..])) == Ok(f.sideInfo);
      LayoutWindow(data[f.sideInfoOffset..], p, c);
      SideInfoAtOffset(data, f.sideInfoOffset, p, c, f.sideInfo);
    }
  }

  /** The side-information record `rec` holds the bits of the three bytes
      `w`, for a layout with `p` private bits and `c` channels:
      `main_data_begin` first, then `private_bits`, then the selection array
      one bit per element, row by row. */
  predicate SideInfoBits(w: seq<Byte>, p: nat, c: nat, rec: Bitfield.Record)
  {
    |w| == 3 && 9 + p + 4 * c <= 24 && |rec.values| == 3 &&
    rec.values[0] == Scalar(IntV(BitsValue(w, 0, 9))) &&
    rec.values[1] == Scalar(IntV(BitsValue(w, 9, p))) &&
    rec.values[2].Array? && |Flatten(rec.values[2].a)| == 4 * c &&
    forall i :: 0 <= i < 4 * c ==> Flatten(rec.values[2].a)[i] == IntV(BitsValue(w, 9 + p + i, 1))
  }

  /** The side-information record `rec` holds the bits of the three bytes
      at byte `at` of the data. */
  predicate SideInfoAt(data: seq<Byte>, at: nat, p: nat, c: nat, rec: Bitfield.Record)
  {
    at + 3 <= |data| && SideInfoBits(data[at..at + 3], p, c, rec)
  }

  /** The first three bytes of the data from `at` are the three bytes at
      `at`. */
  lemma SideInfoAtOffset(data: seq<Byte>, at: nat, p: nat, c: nat, rec: Bitfield.Record)
    requires at + 3 <= |data| && SideInfoBits(data[at..][..3], p, c, rec)
    ensures SideInfoAt(data, at, p, c, rec)
  {
    assert data[at..][..3] == data[at..at + 3];
  }

  /** A decoded side-information layout holds the bits of the first three
      bytes of the buffer. */
  lemma LayoutWindow(buf: seq<Byte>, p: nat, c: nat)
    requires (p == 5 && c == 1) || (p == 3 && c == 2)
    requires Bitfield.Decode(SideInfoLayout(p, c), FromBuffer(buf)).Ok?
    ensures |buf| >= 3 && SideInfoBits(buf[..3], p, c, Bitfield.Decode(SideInfoLayout(p, c), FromBuffer(buf)).value)
  {
    LayoutDecodeValues(buf, p, c);
    var size := (9 + p + 4 * c + 7) / 8;
    assert size == 3;
  }

  /** The layout follows the channel count: the 18-bit mono layout, with a
      1 x 4 selection array, exactly when the header names a single
      channel, and the 20-bit stereo layout, with a 2 x 4 array, otherwise. */
  lemma FrameLayout(data: seq<Byte>)
    ensures DecodeFrame(data).Ok? ==> var f := DecodeFrame(data).value;
      (f.sideInfo.bits == 18 <==> NChannels(f.header) == 1) &&
      (f.sideInfo.bits == 20 <==> NChannels(f.header) == 2)
    ensures DecodeFrame(data).Ok? ==> var f := DecodeFrame(data).value;
      f.sideInfo.values[2].Array? &&
      HasShape(f.sideInfo.values[2].a, [NChannels(f.header), 4])
  {
    if DecodeFrame(data).Err? {
      return;
    }
    var f := DecodeFrame(data).value;
    var rest := data[f.sideInfoOffset..];
    SideInfoSizes(rest);
    if NChannels(f.header) == 1 {
      LayoutDecodeValues(rest, 5, 1);
    } else {
      LayoutDecodeValues(rest, 3, 2);
    }
  }
}
