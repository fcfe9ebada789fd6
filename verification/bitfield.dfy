/** `Field` and `BitfieldBase`: a record of bit fields declared in order, each
    of a fixed width, optionally converted by a class and optionally an array
    of a given shape, decoded by one sequential reader with a log of where
    each field started. */
module Bitfield {
  import opened Common
  import opened Arith
  import opened BitView
  import opened Shapes
  import opened Transformers

  /** The `shape` argument of `Field`: a bare int or a tuple of dimensions. */
  datatype ShapeArg = Dim(n: nat) | Dims(dims: seq<nat>)

  /** The `klass` argument of `Field`: none, `bool`, or an enumeration class. */
  datatype Klass = NoClass | Boolean | EnumOf(cls: EnumClass)

  /** A declared field: its width in bits, its class and its shape. */
  datatype Field = Field(bits: nat, klass: Klass, shape: seq<nat>)

  /** `n_elems`: how many values of `bits` bits the field holds. */
  function NElems(f: Field): nat
  {
    Product(f.shape)
  }

  /** `whole_bits`: the width of the whole field, `bits * n_elems`. */
  function WholeBits(f: Field): nat
  {
    Mul(f.bits, NElems(f))
  }

  lemma ProductOne(n: nat)
    ensures Product([n]) == n
  {
    assert [n][..0] == [];
    MulOne(n);
  }

  /** `Field(bits, klass, shape)`: a bare int shape n becomes the 1-tuple
      (n,), so a scalar field holds one value of `bits` bits. */
  function MakeField(bits: nat, klass: Klass, shape: ShapeArg): (f: Field)
    ensures f.bits == bits && f.klass == klass
    ensures f.shape == (if shape.Dim? then [shape.n] else shape.dims)
    ensures shape.Dim? ==> NElems(f) == shape.n
    ensures WholeBits(f) == bits * NElems(f)
  {
    var dims := if shape.Dim? then [shape.n] else shape.dims;
    if shape.Dim? then
      ProductOne(shape.n);
      MulIsTimes(bits, Product(dims));
      Field(bits, klass, dims)
    else
      MulIsTimes(bits, Product(dims));
      Field(bits, klass, dims)
  }

  /** A decoded value: an integer (an enumeration member is its integer) or
      a truth value. */
  datatype Value = IntV(n: nat) | BoolV(b: bool)

  /** `item.klass(v)` when the field has a class, `v` itself otherwise. */
  function Convert(k: Klass, v: nat): Result<Value>
  {
    match k
    case NoClass => Ok(IntV(v))
    case Boolean => Ok(BoolV(v != 0))
    case EnumOf(cls) =>
      var e :- EnumDecode(cls, v);
      Ok(IntV(e))
  }

  /** The value of a field: one value, or nested lists of values. */
  datatype FieldValue = Scalar(v: Value) | Array(a: Nested<Value>)

  /** The `n_elems` reads of an array field, in order: read `bits` bits,
      convert, repeat; the first failure is the failure. */
  function ReadMany(r: Reader, bits: nat, klass: Klass, count: nat): (res: Result<(seq<Value>, Reader)>)
    ensures res.Ok? ==> |res.value.0| == count
    ensures res.Ok? ==> res.value.1 == Reader(r.bits, r.offset + Mul(bits, count))
    decreases count
  {
    if count == 0 then Ok(([], r))
    else
      var prev :- ReadMany(r, bits, klass, count - 1);
      var cur :- Read(prev.1, bits);
      var c :- Convert(klass, cur.0);
      Ok((prev.0 + [c], cur.1))
  }

  /** Element i of an array field: the `bits` bits at i * bits past the
      start, converted. */
  function Element(r: Reader, bits: nat, klass: Klass, i: nat): Result<Value>
  {
    var cur :- Read(Reader(r.bits, r.offset + Mul(bits, i)), bits);
    Convert(klass, cur.0)
  }

  /** One more element: the reads of count elements are the reads of the
      first count - 1 followed by the last element. */
  lemma ReadManyStep(r: Reader, bits: nat, klass: Klass, count: nat)
    requires count > 0
    ensures ReadMany(r, bits, klass, count).Ok? <==>
      ReadMany(r, bits, klass, count - 1).Ok? && Element(r, bits, klass, count - 1).Ok?
    ensures ReadMany(r, bits, klass, count).Ok? ==>
      ReadMany(r, bits, klass, count).value.0
        == ReadMany(r, bits, klass, count - 1).value.0 + [Element(r, bits, klass, count - 1).value]
  {
    var prev := ReadMany(r, bits, klass, count - 1);
    if prev.Ok? {
      assert prev.value.1 == Reader(r.bits, r.offset + Mul(bits, count - 1));
    }
  }

  /** The reads of an array field succeed exactly when every element can be
      read and converted, and then element i is the i-th value. */
  lemma {:induction false} ReadManyElements(r: Reader, bits: nat, klass: Klass, count: nat)
    ensures ReadMany(r, bits, klass, count).Ok? <==> forall i :: 0 <= i < count ==> Element(r, bits, klass, i).Ok?
    ensures ReadMany(r, bits, klass, count).Ok? ==>
      forall i :: 0 <= i < count ==> Element(r, bits, klass, i) == Ok(ReadMany(r, bits, klass, count).value.0[i])
    decreases count
  {
    if count > 0 {
      ReadManyElements(r, bits, klass, count - 1);
      ReadManyStep(r, bits, klass, count);
      if !ReadMany(r, bits, klass, count - 1).Ok? {
        var j :| 0 <= j < count - 1 && !Element(r, bits, klass, j).Ok?;
      }
    }
  }

  /** One field read from the reader: an array field (any shape but (1,))
      reads `n_elems` values and reshapes them; a scalar field reads one. */
  function DecodeField(r: Reader, f: Field): (res: Result<(FieldValue, Reader)>)
    ensures res.Ok? ==> res.value.1 == Reader(r.bits, r.offset + WholeBits(f))
  {
    if f.shape != [1] then
      var many :- ReadMany(r, f.bits, f.klass, NElems(f));
      var arr :- Reshape(many.0, f.shape);
      Ok((Array(arr), many.1))
    else
      ProductOne(1);
      assert Mul(f.bits, 1) == f.bits;
      var cur :- Read(r, f.bits);
      var c :- Convert(f.klass, cur.0);
      Ok((Scalar(c), cur.1))
  }

  /** A scalar field is its single element: the `bits` bits at the reader,
      converted. */
  lemma ScalarField(r: Reader, f: Field)
    requires f.shape == [1]
    ensures DecodeField(r, f).Ok? <==> Element(r, f.bits, f.klass, 0).Ok?
    ensures DecodeField(r, f).Ok? ==> DecodeField(r, f).value.0 == Scalar(Element(r, f.bits, f.klass, 0).value)
  {
    assert Reader(r.bits, r.offset + Mul(f.bits, 0)) == r;
  }

  /** An array field decodes exactly when its shape has a dimension and all
      `n_elems` elements can be read; it then has the declared shape and
      flattens, row-major, to the elements in reading order. */
  lemma ArrayField(r: Reader, f: Field)
    requires f.shape != [1]
    ensures DecodeField(r, f).Ok? <==>
      |f.shape| > 0 && forall i :: 0 <= i < NElems(f) ==> Element(r, f.bits, f.klass, i).Ok?
    ensures DecodeField(r, f).Ok? ==>
      var v := DecodeField(r, f).value.0;
      v.Array? && HasShape(v.a, f.shape) && |Flatten(v.a)| == NElems(f) &&
      forall i :: 0 <= i < NElems(f) ==> Element(r, f.bits, f.klass, i) == Ok(Flatten(v.a)[i])
  {
    ReadManyElements(r, f.bits, f.klass, NElems(f));
    var many := ReadMany(r, f.bits, f.klass, NElems(f));
    if many.Ok? {
      var vals := many.value.0;
      ReshapeOk(vals, f.shape);
      if |f.shape| == 1 {
        assert f.shape == [f.shape[0]];
        ProductOne(f.shape[0]);
      }
      if |f.shape| > 0 {
        ReshapeShape(vals, f.shape);
        ReshapeFlatten(vals, f.shape);
        assert vals[..|vals|] == vals;
      }
    }
  }

  /** `self.bits`: the sum of the widths of the fields. */
  function TotalBits(fields: seq<Field>): nat
  {
    if |fields| == 0 then 0 else TotalBits(fields[..|fields| - 1]) + WholeBits(fields[|fields| - 1])
  }

  /** One more field adds its whole width. */
  lemma TotalBitsStep(fields: seq<Field>, i: nat)
    requires i < |fields|
    ensures TotalBits(fields[..i + 1]) == TotalBits(fields[..i]) + WholeBits(fields[i])
  {
    assert fields[..i + 1][..i] == fields[..i];
  }

  /** With the whole widths of the fields listed in `widths` and their
      running sums in `offsets`, the fields before field i take up
      `offsets[i]` bits. */
  lemma {:induction false} TotalBitsPrefix(fields: seq<Field>, widths: seq<nat>, offsets: seq<nat>, i: nat)
    requires |widths| == |fields| && |offsets| == |fields| + 1 && offsets[0] == 0
    requires forall j :: 0 <= j < |fields| ==> WholeBits(fields[j]) == widths[j]
    requires forall j :: 0 <= j < |fields| ==> offsets[j + 1] == offsets[j] + widths[j]
    requires i <= |fields|
    ensures TotalBits(fields[..i]) == offsets[i]
    decreases i
  {
    if i > 0 {
      TotalBitsPrefix(fields, widths, offsets, i - 1);
      TotalBitsStep(fields, i - 1);
    }
  }

  /** The field loop of `BitfieldBase.__init__`: each field is decoded where
      the previous one ended and logged with the reader offset before it and
      its whole width. */
  function DecodeFields(r: Reader, fields: seq<Field>): (res: Result<(seq<FieldValue>, seq<LogEntry>, Reader)>)
    ensures res.Ok? ==> |res.value.0| == |fields| && |res.value.1| == |fields|
    ensures res.Ok? ==> res.value.2 == Reader(r.bits, r.offset + TotalBits(fields))
    decreases |fields|
  {
    if |fields| == 0 then Ok(([], [], r))
    else
      var n := |fields|;
      var prev :- DecodeFields(r, fields[..n - 1]);
      var cur :- DecodeField(prev.2, fields[n - 1]);
      Ok((prev.0 + [cur.0], prev.1 + [LogEntry(prev.2.offset, WholeBits(fields[n - 1]))], cur.1))
  }

  /** Field i decoded on its own, at the offset where the fields before it
      end. */
  function FieldAt(r: Reader, fields: seq<Field>, i: nat): Result<(FieldValue, Reader)>
    requires i < |fields|
  {
    DecodeField(Reader(r.bits, r.offset + TotalBits(fields[..i])), fields[i])
  }

  /** A scalar field of a record, decoded at offset `at` where the fields
      before it end: the `bits` bits there, converted by its class. */
  lemma ScalarFieldAt(r: Reader, fields: seq<Field>, i: nat, at: nat)
    requires i < |fields| && fields[i].shape == [1] && at == r.offset + TotalBits(fields[..i])
    ensures FieldAt(r, fields, i).Ok? <==> Element(Reader(r.bits, at), fields[i].bits, fields[i].klass, 0).Ok?
    ensures FieldAt(r, fields, i).Ok? ==>
      FieldAt(r, fields, i).value.0 == Scalar(Element(Reader(r.bits, at), fields[i].bits, fields[i].klass, 0).value)
  {
    ScalarField(Reader(r.bits, at), fields[i]);
  }

  /** Decoding a field sequence with a prefix: the fields of the prefix sit
      at the same offsets as in the whole sequence. */
  lemma FieldAtPrefix(r: Reader, fields: seq<Field>, n: nat)
    requires n <= |fields|
    ensures forall i :: 0 <= i < n ==> FieldAt(r, fields[..n], i) == FieldAt(r, fields, i)
  {
    forall i | 0 <= i < n
      ensures FieldAt(r, fields[..n], i) == FieldAt(r, fields, i)
    {
      assert fields[..n][..i] == fields[..i];
    }
  }

  /** The log entry of field i: the offset where the fields before it end,
      and its whole width. */
  function LogAt(r: Reader, fields: seq<Field>, i: nat): LogEntry
    requires i < |fields|
  {
    LogEntry(r.offset + TotalBits(fields[..i]), WholeBits(fields[i]))
  }

  /** One more field: the loop over the fields succeeds when the loop over
      all but the last does and the last field decodes at its own offset. */
  lemma StepOk(r: Reader, fields: seq<Field>)
    requires |fields| > 0
    ensures DecodeFields(r, fields).Ok? <==>
      DecodeFields(r, fields[..|fields| - 1]).Ok? && FieldAt(r, fields, |fields| - 1).Ok?
  {
    var prev := DecodeFields(r, fields[..|fields| - 1]);
    if prev.Ok? {
      assert prev.value.2 == Reader(r.bits, r.offset + TotalBits(fields[..|fields| - 1]));
    }
  }

  /** One more field: its value follows the values of the fields before it. */
  lemma StepValues(r: Reader, fields: seq<Field>)
    requires |fields| > 0
    ensures DecodeFields(r, fields).Ok? ==>
      DecodeFields(r, fields).value.0
        == DecodeFields(r, fields[..|fields| - 1]).value.0 + [FieldAt(r, fields, |fields| - 1).value.0]
  {
    var prev := DecodeFields(r, fields[..|fields| - 1]);
    if prev.Ok? {
      assert prev.value.2 == Reader(r.bits, r.offset + TotalBits(fields[..|fields| - 1]));
    }
  }

  /** One more log entry: the log of the fields is the log of all but the
      last followed by the entry of the last. */
  lemma LogStep(r: Reader, fields: seq<Field>)
    requires |fields| > 0
    ensures DecodeFields(r, fields).Ok? ==>
      DecodeFields(r, fields).value.1 == DecodeFields(r, fields[..|fields| - 1]).value.1 + [LogAt(r, fields, |fields| - 1)]
  {
    var n := |fields|;
    var prev := DecodeFields(r, fields[..n - 1]);
    if DecodeFields(r, fields).Ok? {
      assert prev.Ok? && DecodeField(prev.value.2, fields[n - 1]).Ok?;
      assert DecodeFields(r, fields).value.1 == prev.value.1 + [LogEntry(prev.value.2.offset, WholeBits(fields[n - 1]))];
      assert prev.value.2.offset == r.offset + TotalBits(fields[..n - 1]);
      assert LogAt(r, fields, n - 1) == LogEntry(prev.value.2.offset, WholeBits(fields[n - 1]));
    }
  }

  /** The field loop succeeds exactly when every field decodes at its own
      offset. */
  lemma {:induction false} DecodeFieldsOk(r: Reader, fields: seq<Field>)
    ensures DecodeFields(r, fields).Ok? <==> forall i :: 0 <= i < |fields| ==> FieldAt(r, fields, i).Ok?
    decreases |fields|
  {
    var n := |fields|;
    if n > 0 {
      DecodeFieldsOk(r, fields[..n - 1]);
      FieldAtPrefix(r, fields, n - 1);
      StepOk(r, fields);
      if !DecodeFields(r, fields[..n - 1]).Ok? {
        var j :| 0 <= j < n - 1 && !FieldAt(r, fields[..n - 1], j).Ok?;
      }
    }
  }

  /** The value of field i is that field decoded on its own at its offset. */
  lemma {:induction false} DecodeFieldsValues(r: Reader, fields: seq<Field>)
    ensures DecodeFields(r, fields).Ok? ==> forall i :: 0 <= i < |fields| ==>
      FieldAt(r, fields, i).Ok? && DecodeFields(r, fields).value.0[i] == FieldAt(r, fields, i).value.0
    decreases |fields|
  {
    var n := |fields|;
    if n > 0 && DecodeFields(r, fields).Ok? {
      DecodeFieldsValues(r, fields[..n - 1]);
      FieldAtPrefix(r, fields, n - 1);
      StepOk(r, fields);
      StepValues(r, fields);
      var prev := DecodeFields(r, fields[..n - 1]).value.0;
      var all := DecodeFields(r, fields).value.0;
      forall i | 0 <= i < n
        ensures FieldAt(r, fields, i).Ok? && all[i] == FieldAt(r, fields, i).value.0
      {
        if i < n - 1 {
          assert all[i] == prev[i];
          assert FieldAt(r, fields[..n - 1], i) == FieldAt(r, fields, i);
        }
      }
    }
  }

  lemma LogAtPrefix(r: Reader, fields: seq<Field>, n: nat)
    requires n <= |fields|
    ensures forall i :: 0 <= i < n ==> LogAt(r, fields[..n], i) == LogAt(r, fields, i)
  {
    forall i | 0 <= i < n
      ensures LogAt(r, fields[..n], i) == LogAt(r, fields, i)
    {
      assert fields[..n][..i] == fields[..i];
    }
  }

  /** The log: field i is logged with the reader offset where the fields
      before it end, and its whole width. */
  lemma {:induction false} DecodeFieldsLog(r: Reader, fields: seq<Field>)
    ensures DecodeFields(r, fields).Ok? ==> forall i :: 0 <= i < |fields| ==>
      DecodeFields(r, fields).value.1[i] == LogAt(r, fields, i)
    decreases |fields|
  {
    var n := |fields|;
    if n > 0 && DecodeFields(r, fields).Ok? {
      DecodeFieldsLog(r, fields[..n - 1]);
      LogStep(r, fields);
      LogAtPrefix(r, fields, n - 1);
    }
  }

  /** What a record is decoded from: bytes, a bit view, or a reader that is
      shared with the caller and continues where it stands. */
  datatype Input = FromBuffer(buf: seq<Byte>) | FromBits(view: Bits) | FromReader(reader: Reader)

  /** A decoded record: its width in bits, its size in whole bytes, the field
      values in declaration order, the log, and the reader after the last
      field. */
  datatype Record = Record(bits: nat, size: nat, values: seq<FieldValue>, log: seq<LogEntry>, reader: Reader)

  /** The reader a record starts from: over the first `size` bytes of a
      buffer, at the start of a view, or the given reader as it stands. */
  function StartReader(input: Input, size: nat): Reader
  {
    match input
    case FromBuffer(buf) => Reader(FromBytes(buf, 0, Some(size)), 0)
    case FromBits(view) => Reader(view, 0)
    case FromReader(reader) => reader
  }

  /** `BitfieldBase.__init__`: the size in bytes is the width in bits
      rounded up, and the fields are decoded in declaration order. */
  function Decode(fields: seq<Field>, input: Input): (res: Result<Record>)
    ensures res.Ok? ==> res.value.bits == TotalBits(fields)
    ensures res.Ok? ==> 8 * res.value.size >= res.value.bits > 8 * res.value.size - 8
    ensures res.Ok? ==> res.value.reader.offset == StartReader(input, res.value.size).offset + res.value.bits
    ensures res.Ok? ==> |res.value.values| == |fields| && |res.value.log| == |fields|
    ensures var d := DecodeFields(StartReader(input, (TotalBits(fields) + 7) / 8), fields);
      (res.Ok? <==> d.Ok?) && (res.Ok? ==> res.value.values == d.value.0 && res.value.log == d.value.1)
  {
    var bits := TotalBits(fields);
    var size := (bits + 7) / 8;
    var decoded :- DecodeFields(StartReader(input, size), fields);
    Ok(Record(bits, size, decoded.0, decoded.1, decoded.2))
  }

  /** A record of a known width decodes exactly when its field loop does
      over the bytes that width rounds up to, and then spans those bytes
      and holds the loop's values. */
  lemma DecodeSized(fields: seq<Field>, input: Input, bits: nat, size: nat)
    requires bits == TotalBits(fields) && size == (bits + 7) / 8
    ensures Decode(fields, input).Ok? <==> DecodeFields(StartReader(input, size), fields).Ok?
    ensures Decode(fields, input).Ok? ==> Decode(fields, input).value.size == size
    ensures Decode(fields, input).Ok? ==> Decode(fields, input).value.values == DecodeFields(StartReader(input, size), fields).value.0
  {
    assert (TotalBits(fields) + 7) / 8 == size;
  }

  /** The log of a decoded record: field i at the offset where the fields
      before it end, counted from the reader the record starts from. */
  lemma DecodeLog(fields: seq<Field>, input: Input)
    requires Decode(fields, input).Ok?
    ensures forall i :: 0 <= i < |fields| ==>
      Decode(fields, input).value.log[i] == LogAt(StartReader(input, (TotalBits(fields) + 7) / 8), fields, i)
  {
    var r := StartReader(input, (TotalBits(fields) + 7) / 8);
    var d := DecodeFields(r, fields);
    assert d.Ok? && Decode(fields, input).value.log == d.value.1;
    DecodeFieldsLog(r, fields);
    forall i | 0 <= i < |fields|
      ensures Decode(fields, input).value.log[i] == LogAt(r, fields, i)
    {
      assert d.value.1[i] == LogAt(r, fields, i);
    }
  }
}
