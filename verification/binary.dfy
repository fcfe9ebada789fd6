/** `Item` and `BinaryBase`: a record of byte-aligned items declared in order,
    each unpacked at a running byte offset with a fixed `struct` format or by
    a function that reports how much it consumed, with a log of where each
    item started and what it consumed. */
module Binary {
  import opened Common
  import opened Arith
  import opened Transformers

  /** The `struct` formats the decoders use: `Ns` (n raw bytes), `B` (one
      unsigned byte), `NB` (n unsigned bytes), `>H` and `>I` (big-endian
      unsigned 16- and 32-bit integers). */
  datatype Format = Str(n: nat) | UByte | UBytes(count: nat) | BE16 | BE32

  /** `struct.Struct(fmt).size`: the number of bytes the format occupies. */
  function FormatSize(fmt: Format): nat
  {
    match fmt
    case Str(n) => n
    case UByte => 1
    case UBytes(count) => count
    case BE16 => 2
    case BE32 => 4
  }

  /** What `Item.unpack` produces: a byte string, a number, or a tuple of
      numbers. A one-element tuple is unwrapped to its element. */
  datatype Unpacked = Raw(bytes: seq<Byte>) | Num(n: nat) | Nums(ns: seq<nat>)

  /** The unsigned integer whose big-endian bytes are `bs`. */
  function BigEndian(bs: seq<Byte>): nat
  {
    if |bs| == 0 then 0 else 256 * BigEndian(bs[..|bs| - 1]) + bs[|bs| - 1]
  }

  /** An n-byte big-endian integer is below 2^(8n). */
  lemma {:induction false} BigEndianBound(bs: seq<Byte>)
    ensures BigEndian(bs) < Pow2(8 * |bs|)
    decreases |bs|
  {
    if |bs| > 0 {
      BigEndianBound(bs[..|bs| - 1]);
      Pow2Add(8 * (|bs| - 1), 8);
      assert Pow2(8) == 256;
    }
  }

  /** The big-endian 16- and 32-bit integers at byte i. */
  function U16(bs: seq<Byte>, i: nat): nat
    requires i + 2 <= |bs|
  {
    256 * (bs[i] as nat) + bs[i + 1] as nat
  }

  function U32(bs: seq<Byte>, i: nat): nat
    requires i + 4 <= |bs|
  {
    256 * (256 * (256 * (bs[i] as nat) + bs[i + 1] as nat) + bs[i + 2] as nat) + bs[i + 3] as nat
  }

  /** The fold over two or four bytes is the fixed-width formula. */
  lemma BigEndianFixed(bs: seq<Byte>, i: nat)
    requires i + 2 <= |bs|
    ensures BigEndian(bs[i..i + 2]) == U16(bs, i)
    ensures i + 4 <= |bs| ==> BigEndian(bs[i..i + 4]) == U32(bs, i)
  {
    var s1 := bs[i..i + 1];
    var s2 := bs[i..i + 2];
    assert s1[..0] == [];
    assert BigEndian(s1) == bs[i];
    assert s2[..1] == s1;
    if i + 4 <= |bs| {
      var s3 := bs[i..i + 3];
      var s4 := bs[i..i + 4];
      assert s3[..2] == s2;
      assert s4[..3] == s3;
    }
  }

  /** `struct.unpack('>H', b'\x01\x02')` is 258 and `>I` of `00 00 01 00`
      is 256. */
  lemma BigEndianExamples()
    ensures BigEndian([1, 2]) == 258
    ensures BigEndian([0, 0, 1, 0]) == 256
  {
    assert [1, 2][..1] == [1];
    assert [0, 0, 1, 0][..3] == [0, 0, 1];
    assert [0, 0, 1][..2] == [0, 0];
    assert [0, 0][..1] == [0];
  }

  /** `struct.unpack_from(fmt, buf, offset)`, singleton tuples unwrapped; a
      buffer too short for the format is a failure. */
  function Unpack(fmt: Format, buf: seq<Byte>, offset: nat): (r: Result<Unpacked>)
    ensures r.Err? <==> offset + FormatSize(fmt) > |buf|
    ensures r.Err? ==> r.error == TruncatedBuffer
  {
    if offset + FormatSize(fmt) > |buf| then Err(TruncatedBuffer)
    else
      var bs := buf[offset..offset + FormatSize(fmt)];
      match fmt
      case Str(_) => Ok(Raw(bs))
      case UByte => Ok(Num(bs[0]))
      case UBytes(count) =>
        if count == 1 then Ok(Num(bs[0]))
        else Ok(Nums(seq(count, i requires 0 <= i < count => bs[i] as nat)))
      case BE16 => Ok(Num(BigEndian(bs)))
      case BE32 => Ok(Num(BigEndian(bs)))
  }

  /** A byte string iterated as integers, as a `for` loop over it yields
      them. */
  function ByteValues(bs: seq<Byte>): (ns: seq<nat>)
    ensures |ns| == |bs| && forall i :: 0 <= i < |bs| ==> ns[i] == bs[i] as nat
  {
    seq(|bs|, i requires 0 <= i < |bs| => bs[i] as nat)
  }

  /** The transformers an item can carry: none, `MSBZeroBytes(size)`, or
      `EnumTransformer(klass)`. */
  datatype Transformer = NoTransform | Synchsafe(size: nat) | EnumT(cls: EnumClass)

  /** `transformer.decode(v)`. The synchsafe fold iterates over its input, so
      it takes a tuple or a byte string and fails on a number; an enumeration
      class takes a number and fails on anything else. */
  function Apply(tr: Transformer, v: Unpacked): (r: Result<Unpacked>)
    ensures tr.NoTransform? ==> r == Ok(v)
    ensures tr.Synchsafe? && v.Nums? ==> r == Ok(Num(SynchsafeDecode(v.ns)))
    ensures tr.Synchsafe? && v.Raw? ==> r == Ok(Num(SynchsafeDecode(ByteValues(v.bytes))))
    ensures tr.EnumT? && v.Num? ==> (r.Ok? <==> EnumDecode(tr.cls, v.n).Ok?)
    ensures tr.EnumT? && r.Ok? ==> v.Num? && r.value == v
    ensures r.Ok? && !tr.NoTransform? ==> r.value.Num?
    ensures r.Err? ==> (r.error == WrongType <==> (tr.Synchsafe? && v.Num?) || (tr.EnumT? && !v.Num?))
    ensures r.Err? && r.error != WrongType ==> tr.EnumT? && r.error == InvalidEnumValue
  {
    match tr
    case NoTransform => Ok(v)
    case Synchsafe(_) =>
      (match v
       case Num(_) => Err(WrongType)
       case Nums(ns) => Ok(Num(SynchsafeDecode(ns)))
       case Raw(bs) => Ok(Num(SynchsafeDecode(ByteValues(bs)))))
    case EnumT(cls) =>
      (match v
       case Num(n) =>
         var e :- EnumDecode(cls, n);
         Ok(Num(e))
       case _ => Err(WrongType))
  }

  /** A declared item: a fixed-format `Item` (which, when `noskip`, is read
      without advancing), or a function item that unpacks at an offset and
      reports how many bytes it consumed. */
  datatype Item =
    | Fixed(fmt: Format, transformer: Transformer, noskip: bool)
    | Functional(unpack: (seq<Byte>, nat) -> Result<(Unpacked, nat)>)

  /** One item at a byte offset: its value and how many bytes it consumed. */
  function DecodeItem(item: Item, buf: seq<Byte>, offset: nat): (r: Result<(Unpacked, nat)>)
    ensures item.Fixed? && r.Ok? ==> r.value.1 == (if item.noskip then 0 else FormatSize(item.fmt))
    ensures item.Fixed? && r.Ok? ==> offset + FormatSize(item.fmt) <= |buf|
    ensures item.Functional? ==> r == item.unpack(buf, offset)
  {
    match item
    case Fixed(fmt, transformer, noskip) =>
      var v :- Unpack(fmt, buf, offset);
      var t :- Apply(transformer, v);
      Ok((t, if noskip then 0 else FormatSize(fmt)))
    case Functional(unpack) => unpack(buf, offset)
  }

  /** The total of the sizes in a log. */
  function SumSizes(log: seq<LogEntry>): nat
  {
    if |log| == 0 then 0 else SumSizes(log[..|log| - 1]) + log[|log| - 1].size
  }

  /** The item loop of `BinaryBase.__init__`: each item is decoded at the
      offset where the previous one stopped, logged with that offset and what
      it consumed; the result carries the final offset. */
  function DecodeItems(items: seq<Item>, buf: seq<Byte>): (res: Result<(seq<Unpacked>, seq<LogEntry>, nat)>)
    ensures res.Ok? ==> |res.value.0| == |items| && |res.value.1| == |items|
    decreases |items|
  {
    if |items| == 0 then Ok(([], [], 0))
    else
      var n := |items|;
      var prev :- DecodeItems(items[..n - 1], buf);
      var cur :- DecodeItem(items[n - 1], buf, prev.2);
      Ok((prev.0 + [cur.0], prev.1 + [LogEntry(prev.2, cur.1)], prev.2 + cur.1))
  }

  /** One more item: it is decoded where the items before it stopped. */
  lemma ItemsStep(items: seq<Item>, buf: seq<Byte>)
    requires |items| > 0
    ensures DecodeItems(items, buf).Ok? <==>
      DecodeItems(items[..|items| - 1], buf).Ok? &&
      DecodeItem(items[|items| - 1], buf, DecodeItems(items[..|items| - 1], buf).value.2).Ok?
    ensures DecodeItems(items, buf).Ok? ==>
      var prev := DecodeItems(items[..|items| - 1], buf).value;
      var cur := DecodeItem(items[|items| - 1], buf, prev.2).value;
      DecodeItems(items, buf).value == (prev.0 + [cur.0], prev.1 + [LogEntry(prev.2, cur.1)], prev.2 + cur.1)
  {
  }

  /** The final offset is the total consumed, and each item is logged at the
      total consumed by the items before it. */
  lemma {:induction false} ItemsOffsets(items: seq<Item>, buf: seq<Byte>)
    ensures DecodeItems(items, buf).Ok? ==>
      var (_, log, offset) := DecodeItems(items, buf).value;
      offset == SumSizes(log) && forall i :: 0 <= i < |items| ==> log[i].offset == SumSizes(log[..i])
    decreases |items|
  {
    var n := |items|;
    if n > 0 && DecodeItems(items, buf).Ok? {
      ItemsOffsets(items[..n - 1], buf);
      ItemsStep(items, buf);
      var log := DecodeItems(items, buf).value.1;
      assert log[..n - 1] == DecodeItems(items[..n - 1], buf).value.1;
      forall i | 0 <= i < n - 1
        ensures log[..n - 1][..i] == log[..i]
      {
      }
    }
  }

  /** Each item's value and consumption are those of decoding the item on its
      own at its logged offset. */
  lemma {:induction false} ItemsValues(items: seq<Item>, buf: seq<Byte>)
    ensures DecodeItems(items, buf).Ok? ==>
      var (vals, log, _) := DecodeItems(items, buf).value;
      forall i :: 0 <= i < |items| ==> DecodeItem(items[i], buf, log[i].offset) == Ok((vals[i], log[i].size))
    decreases |items|
  {
    var n := |items|;
    if n > 0 && DecodeItems(items, buf).Ok? {
      ItemsValues(items[..n - 1], buf);
      ItemsStep(items, buf);
    }
  }

  /** A decoded `BinaryBase` record: the item values in declaration order,
      the log, and `size`, the bytes consumed in total. */
  datatype Record = Record(values: seq<Unpacked>, log: seq<LogEntry>, size: nat)

  /** `BinaryBase.__init__` over a buffer. */
  function Decode(items: seq<Item>, buf: seq<Byte>): (res: Result<Record>)
    ensures res.Ok? ==> |res.value.values| == |items| && |res.value.log| == |items|
    ensures res.Ok? ==> res.value.size == SumSizes(res.value.log)
    ensures res.Ok? ==> forall i :: 0 <= i < |items| ==>
      res.value.log[i].offset == SumSizes(res.value.log[..i]) &&
      DecodeItem(items[i], buf, res.value.log[i].offset) == Ok((res.value.values[i], res.value.log[i].size))
  {
    ItemsOffsets(items, buf);
    ItemsValues(items, buf);
    var d :- DecodeItems(items, buf);
    Ok(Record(d.0, d.1, d.2))
  }

  /** The size of a decoded record is the sum of what its items consumed;
      a `noskip` item consumes nothing and any other fixed item its format
      size. */
  lemma DecodeSize(items: seq<Item>, buf: seq<Byte>)
    requires Decode(items, buf).Ok?
    ensures Decode(items, buf).value.size == SumSizes(Decode(items, buf).value.log)
    ensures forall i :: 0 <= i < |items| && items[i].Fixed? ==>
      Decode(items, buf).value.log[i].size == (if items[i].noskip then 0 else FormatSize(items[i].fmt))
  {
    ItemsOffsets(items, buf);
    ItemsValues(items, buf);
    var log := Decode(items, buf).value.log;
    forall i | 0 <= i < |items| && items[i].Fixed?
      ensures log[i].size == (if items[i].noskip then 0 else FormatSize(items[i].fmt))
    {
      assert DecodeItem(items[i], buf, log[i].offset).Ok?;
    }
  }

  /** The item sizes of a layout of fixed items that all advance. */
  function FixedSize(items: seq<Item>): nat
  {
    if |items| == 0 then 0
    else FixedSize(items[..|items| - 1]) + (if items[|items| - 1].Fixed? then FormatSize(items[|items| - 1].fmt) else 0)
  }

  /** For fixed items that all advance, the record size is the sum of the
      format sizes, whatever the buffer holds. */
  lemma {:induction false} FixedLayoutSize(items: seq<Item>, buf: seq<Byte>)
    requires forall i :: 0 <= i < |items| ==> items[i].Fixed? && !items[i].noskip
    ensures DecodeItems(items, buf).Ok? ==> DecodeItems(items, buf).value.2 == FixedSize(items)
    decreases |items|
  {
    var n := |items|;
    if n > 0 && DecodeItems(items, buf).Ok? {
      FixedLayoutSize(items[..n - 1], buf);
      ItemsStep(items, buf);
    }
  }
}
