/** The bit-addressable view of a byte buffer (`Bits`) and the sequential
    cursor over it (`BitsReader`). Bits are numbered from the most significant
    bit of the first byte, so that bit 0 of `FF E0` is the top bit of `FF`. */
module BitView {
  import opened Common
  import opened Arith

  /** Bit i of a byte region, most significant bit of each byte first: the
      first eight bits are those of bs[0], from its top bit down, and the
      rest are the bits of the bytes after it. */
  function BitOf(bs: seq<Byte>, i: nat): (r: nat)
    requires i < 8 * |bs|
    ensures r < 2
    decreases i
  {
    if i < 8 then Shr(bs[0], 7 - i) % 2 else BitOf(bs[1..], i - 8)
  }

  /** Bit i = 8k + m is bit 7 - m of byte k, that is
      `(bs[i // 8] >> (7 - i % 8)) & 1`. */
  lemma {:induction false} BitOfByte(bs: seq<Byte>, i: nat, k: nat, m: nat)
    requires k < |bs| && m < 8 && i == 8 * k + m
    ensures BitOf(bs, i) == Shr(bs[k], 7 - m) % 2
    decreases k
  {
    if k > 0 {
      BitOfByte(bs[1..], i - 8, k - 1, m);
    }
  }

  /** The reference reading: bits [off, off + n) of `bs` as an unsigned
      integer, most significant bit first (Horner form). */
  function BitsValue(bs: seq<Byte>, off: nat, n: nat): nat
    requires off + n <= 8 * |bs|
    decreases n
  {
    if n == 0 then 0 else 2 * BitsValue(bs, off, n - 1) + BitOf(bs, off + n - 1)
  }

  /** The same reading written as a weighted sum: bit off + i has weight
      2^(n - 1 - i). */
  function BitsSum(bs: seq<Byte>, off: nat, n: nat): nat
    requires off + n <= 8 * |bs|
    decreases n
  {
    if n == 0 then 0 else BitOf(bs, off) * Pow2(n - 1) + BitsSum(bs, off + 1, n - 1)
  }

  lemma {:induction false} BitsValueBound(bs: seq<Byte>, off: nat, n: nat)
    requires off + n <= 8 * |bs|
    ensures BitsValue(bs, off, n) < Pow2(n)
    decreases n
  {
    if n > 0 {
      BitsValueBound(bs, off, n - 1);
    }
  }

  /** Reading n = a + b bits from off is reading a bits, shifting them up by b,
      and adding the b bits that start at off2 = off + a. */
  lemma {:induction false} BitsValueSplit(bs: seq<Byte>, off: nat, a: nat, off2: nat, b: nat, n: nat)
    requires off2 == off + a && n == a + b && off + n <= 8 * |bs|
    ensures BitsValue(bs, off, n) == Shl(BitsValue(bs, off, a), b) + BitsValue(bs, off2, b)
    decreases b
  {
    if b > 0 {
      BitsValueSplit(bs, off, a, off2, b - 1, n - 1);
      assert BitsValue(bs, off, n) == 2 * BitsValue(bs, off, n - 1) + BitOf(bs, off + n - 1);
      assert BitsValue(bs, off2, b) == 2 * BitsValue(bs, off2, b - 1) + BitOf(bs, off2 + b - 1);
      assert Shl(BitsValue(bs, off, a), b) == 2 * Shl(BitsValue(bs, off, a), b - 1);
    }
  }


  /** Conversely, the first a of a + b bits are the whole shifted right by b,
      and the last b bits are its low b bits. */
  lemma BitsValueParts(bs: seq<Byte>, off: nat, a: nat, off2: nat, b: nat, n: nat)
    requires off2 == off + a && n == a + b && off + n <= 8 * |bs|
    ensures BitsValue(bs, off, a) == Shr(BitsValue(bs, off, n), b)
    ensures BitsValue(bs, off2, b) == Mask(BitsValue(bs, off, n), b)
  {
    BitsValueSplit(bs, off, a, off2, b, n);
    BitsValueBound(bs, off2, b);
    ShlAddParts(BitsValue(bs, off, a), BitsValue(bs, off2, b), b, BitsValue(bs, off, n));
  }

  lemma BitsValueOne(bs: seq<Byte>, off: nat)
    requires off < 8 * |bs|
    ensures BitsValue(bs, off, 1) == BitOf(bs, off)
  {
  }

  /** The Horner reading and the weighted sum agree. */
  lemma {:induction false} BitsValueIsSum(bs: seq<Byte>, off: nat, n: nat)
    requires off + n <= 8 * |bs|
    ensures BitsValue(bs, off, n) == BitsSum(bs, off, n)
    decreases n
  {
    if n > 0 {
      BitsValueIsSum(bs, off + 1, n - 1);
      BitsValueFirst(bs, off, n, off + 1, n - 1);
    }
  }

  /** The first bit of a reading carries weight 2^(n - 1). */
  lemma BitsValueFirst(bs: seq<Byte>, off: nat, n: nat, off1: nat, n1: nat)
    requires n >= 1 && off1 == off + 1 && n1 == n - 1 && off + n <= 8 * |bs|
    ensures BitsValue(bs, off, n) == BitOf(bs, off) * Pow2(n1) + BitsValue(bs, off1, n1)
  {
    BitsValueSplit(bs, off, 1, off1, n1, n);
    BitsValueOne(bs, off);
    ShlIsMul(BitOf(bs, off), n1);
  }

  /** Bits m .. m + l - 1 of byte k, found at absolute bit cur = 8k + m, are
      the byte masked to its low e = 8 - m bits and shifted right by the
      e - l bits that follow them. */
  lemma {:induction false} BitsInByte(bs: seq<Byte>, cur: nat, k: nat, m: nat, e: nat, l: nat)
    requires k < |bs| && m < 8 && e == 8 - m && l <= e && cur == 8 * k + m
    ensures BitsValue(bs, cur, l) == Shr(Mask(bs[k], e), e - l)
    decreases l
  {
    var y := Mask(bs[k], e);
    if l == 0 {
      MaskBound(bs[k], e);
      ShrSmall(y, e - l);
    } else {
      BitsInByte(bs, cur, k, m, e, l - 1);
      BitOfByte(bs, cur + l - 1, k, m + l - 1);
      ShrHalf(y, e - l, e - (l - 1));
      MaskKeepsBit(bs[k], e, e - l);
    }
  }

  /** The same for a whole field: the l bits found m bits into byte k. */
  lemma BitsOfByte(bs: seq<Byte>, cur: nat, k: nat, m: nat, l: nat)
    requires k < |bs| && m + l <= 8 && cur == 8 * k + m
    ensures BitsValue(bs, cur, l) == ByteBits(bs[k], m, l)
  {
    if m < 8 {
      BitsInByte(bs, cur, k, m, 8 - m, l);
    }
  }

  /** A view of `backing`, starting `bitOffset` bits in, of `size` bits; a
      negative size means "unknown". The backing bytes are shared, not copied. */
  datatype Bits = Bits(backing: seq<Byte>, bitOffset: nat, size: int)

  /** Bit i of the view, when it lies inside the backing bytes. */
  predicate HasBit(b: Bits, i: nat)
  {
    b.bitOffset + i < 8 * |b.backing|
  }

  function ViewBit(b: Bits, i: nat): nat
    requires HasBit(b, i)
  {
    BitOf(b.backing, b.bitOffset + i)
  }

  /** `Bits(buf, offset, size)` for a bytes buffer: `size` counts BYTES and
      becomes a size in bits; no size means an unknown length. */
  function FromBytes(buf: seq<Byte>, offset: nat, size: Option<nat>): (b: Bits)
    ensures b.bitOffset == 0
    ensures size.None? ==> b.size < 0 && |b.backing| == if offset <= |buf| then |buf| - offset else 0
    ensures size.Some? ==> b.size == 8 * size.value
    ensures size.Some? ==> |b.backing| <= size.value
    ensures size.Some? && offset + size.value <= |buf| ==> |b.backing| == size.value
    ensures |b.backing| == 0 || offset + |b.backing| <= |buf|
  {
    var backing := match size
      case None => ClampSlice(buf, offset, |buf|)
      case Some(n) => ClampSlice(buf, offset, offset + n);
    var size := match size
      case None => -1
      case Some(n) => 8 * n;
    Bits(backing, 0, size)
  }

  /** Bit i of a view built from bytes is bit 8 * offset + i of the buffer. */
  lemma FromBytesBits(buf: seq<Byte>, offset: nat, size: Option<nat>)
    ensures var b := FromBytes(buf, offset, size);
      forall i :: 0 <= i < 8 * |b.backing| ==> BitOf(b.backing, i) == BitOf(buf, 8 * offset + i)
  {
    var backing := FromBytes(buf, offset, size).backing;
    forall i | 0 <= i < 8 * |backing|
      ensures BitOf(backing, i) == BitOf(buf, 8 * offset + i)
    {
      BitOfByte(backing, i, i / 8, i % 8);
      BitOfByte(buf, 8 * offset + i, offset + i / 8, i % 8);
    }
  }

  /** `Bits(view, offset, size)` for another view: `offset` and `size` count
      BITS, relative to the start of that view, over the same backing bytes. */
  function FromView(v: Bits, offset: nat, size: int): (b: Bits)
    ensures b.backing == v.backing && b.size == size
    ensures forall i :: HasBit(b, i) <==> HasBit(v, offset + i)
    ensures forall i :: HasBit(b, i) ==> ViewBit(b, i) == ViewBit(v, offset + i)
  {
    Bits(v.backing, v.bitOffset + offset, size)
  }

  /** `trim(st, ed)`: the sub-view of bits [st, ed). */
  function Trim(v: Bits, st: nat, ed: nat): (b: Bits)
    ensures b.size == ed - st
    ensures b.backing == v.backing && b.bitOffset == v.bitOffset + st
  {
    FromView(v, st, ed - st)
  }

  /** `b[start:stop:step]`: only unit (or omitted) steps are supported. */
  function Slice(b: Bits, start: nat, stop: nat, step: Option<int>): (r: Result<Bits>)
    ensures r.Err? <==> step.Some? && step.value != 1
    ensures r.Err? ==> r.error == UnsupportedStep
    ensures r.Ok? ==> r.value.backing == b.backing
    ensures r.Ok? ==> r.value.size == stop - start && r.value.bitOffset == b.bitOffset + start
  {
    if step.Some? && step.value != 1 then Err(UnsupportedStep) else Ok(Trim(b, start, stop))
  }

  /** `b[k]`: bit k of the view, read straight from the backing byte. The
      view's own size is not consulted. */
  function BitAt(b: Bits, k: nat): (r: Result<nat>)
    ensures r.Ok? <==> (b.bitOffset + k) / 8 < |b.backing|
    ensures r.Err? ==> r.error == TruncatedBuffer
    ensures r.Ok? ==> r.value < 2
  {
    var offset := b.bitOffset + k;
    var pos := offset / 8;
    var bit := offset % 8;
    if pos >= |b.backing| then Err(TruncatedBuffer)
    else Ok(Shr(b.backing[pos], 7 - bit) % 2)
  }

  /** Index of the last backing byte the integer conversion reads. It reads
      at least one byte, even for a zero-bit view. */
  function LastByte(b: Bits): nat
    requires b.size >= 0
  {
    if b.size == 0 then b.bitOffset / 8 else (b.bitOffset + b.size - 1) / 8
  }

  /** Whether every byte the integer conversion fetches exists: the bits of
      the view, or the one bit at its start when it is empty. */
  predicate Fits(b: Bits)
    requires b.size >= 0
  {
    b.bitOffset + Max(b.size, 1) <= 8 * |b.backing|
  }

  /** `int(b)`, stated through the reference reading `BitsValue`. */
  function Value(b: Bits): (r: Result<nat>)
    ensures r.Err? && r.error == UnknownLength <==> b.size < 0
    ensures r.Err? && r.error == TruncatedBuffer <==> b.size >= 0 && !Fits(b)
    ensures r.Ok? ==> b.bitOffset + b.size <= 8 * |b.backing|
  {
    if b.size < 0 then Err(UnknownLength)
    else if !Fits(b) then Err(TruncatedBuffer)
    else Ok(BitsValue(b.backing, b.bitOffset, b.size))
  }

  /** The conversion fails for truncation exactly when the last byte it would
      fetch lies past the end of the backing bytes. */
  lemma FitsIffLastByteInside(b: Bits)
    requires b.size >= 0
    ensures Fits(b) <==> LastByte(b) < |b.backing|
  {
  }

  /** A known-size conversion of n bits is below 2^n. */
  lemma ValueBound(b: Bits)
    requires Value(b).Ok?
    ensures Value(b).value < Pow2(b.size)
  {
    BitsValueBound(b.backing, b.bitOffset, b.size);
  }

  /** One step of the conversion loop: of the `left` bits still to read from
      bit cur = 8k + m, the first e = 8 - m are the masked byte k, which lands
      shifted up by the left1 = left - e bits after it; adding it to the
      accumulated result keeps the loop's account of the whole reading. */
  lemma TakeRestOfByte(bs: seq<Byte>, whole: nat, res: nat, cur: nat, k: nat, m: nat, e: nat, left: nat,
                       res1: nat, cur1: nat, left1: nat)
    requires k < |bs| && m < 8 && e == 8 - m && cur == 8 * k + m
    requires e < left && cur + left <= 8 * |bs|
    requires cur1 == cur + e && left1 == left - e
    requires whole == res + BitsValue(bs, cur, left)
    requires res1 == res + Shl(Mask(bs[k], e), left1)
    ensures whole == res1 + BitsValue(bs, cur1, left1)
  {
    BitsInByte(bs, cur, k, m, e, e);
    assert Shr(Mask(bs[k], e), e - e) == Mask(bs[k], e);
    BitsValueSplit(bs, cur, e, cur1, left1, left);
  }

  /** The last step of the conversion loop: when the `left` bits still to read
      from bit cur = 8k + m all lie in byte k, the view fits in its backing and
      its value is the accumulated result plus those bits, the masked byte
      shifted right past the e - left bits that follow them. */
  lemma LastChunk(b: Bits, res: nat, cur: nat, k: nat, m: nat, e: nat, left: nat, v: nat)
    requires b.size >= 0 && left <= b.size && (left == 0 ==> b.size == 0)
    requires m < 8 && e == 8 - m && left <= e && k < |b.backing|
    requires cur == 8 * k + m && cur == b.bitOffset + (b.size - left)
    requires BitsValue(b.backing, b.bitOffset, b.size) == res + BitsValue(b.backing, cur, left)
    requires v == Shr(Mask(b.backing[k], e), e - left)
    ensures Value(b) == Ok(res + v)
  {
    BitsInByte(b.backing, cur, k, m, e, left);
  }

  /** `int(b)` as the loop computes it: mask off the bits of the current byte
      not yet consumed, shift them into place, and move on to the next byte. */
  method IntOf(b: Bits) returns (r: Result<nat>)
    ensures r == Value(b)
  {
    if b.size < 0 {
      return Err(UnknownLength);
    }
    var left: nat := b.size;
    var pos: nat := b.bitOffset / 8;
    var msb: nat := b.bitOffset % 8;
    var res: nat := 0;
    ghost var fits := b.bitOffset + b.size <= 8 * |b.backing|;
    ghost var whole := if fits then BitsValue(b.backing, b.bitOffset, b.size) else 0;
    ghost var cur: nat := b.bitOffset;
    while true
      invariant msb < 8
      invariant left <= b.size
      invariant left == 0 ==> b.size == 0
      invariant cur == 8 * pos + msb
      invariant cur == b.bitOffset + (b.size - left)
      invariant fits ==> whole == res + BitsValue(b.backing, cur, left)
      decreases left
    {
      if pos >= |b.backing| {
        return Err(TruncatedBuffer);
      }
      var byte := b.backing[pos];
      var extractable := 8 - msb;
      var v := Mask(byte, extractable);
      if extractable >= left {
        var last := Shr(v, extractable - left);
        LastChunk(b, res, cur, pos, msb, extractable, left, last);
        return Ok(res + last);
      }
      var left1 := left - extractable;
      var res1 := res + Shl(v, left1);
      if fits {
        TakeRestOfByte(b.backing, whole, res, cur, pos, msb, extractable, left, res1, cur + extractable, left1);
      }
      left := left1;
      res := res1;
      pos := pos + 1;
      msb := 0;
      cur := cur + extractable;
    }
  }

  /** The sequential reader: a view plus the number of bits consumed so far. */
  datatype Reader = Reader(bits: Bits, offset: nat)

  /** Absolute bit position, in the backing bytes, of the reader's next bit. */
  function Cursor(r: Reader): nat
  {
    r.bits.bitOffset + r.offset
  }

  /** Whether an n-bit read at the reader's position stays inside the backing
      bytes; the read touches at least one byte even when n is 0. */
  predicate CanRead(r: Reader, n: nat)
  {
    Cursor(r) + Max(n, 1) <= 8 * |r.bits.backing|
  }

  /** The reference reading of a reader: the integer of the next n bits and
      the reader advanced by exactly n, or a truncation failure. */
  function Read(r: Reader, n: nat): (res: Result<(nat, Reader)>)
    ensures res.Ok? ==> res.value.0 < Pow2(n)
  {
    if CanRead(r, n) then
      BitsValueBound(r.bits.backing, Cursor(r), n);
      Ok((BitsValue(r.bits.backing, Cursor(r), n), Reader(r.bits, r.offset + n)))
    else Err(TruncatedBuffer)
  }

  /** `BitsReader.get(n)`: slice the next n bits off the view, convert them
      with the byte-by-byte loop, and advance by n. */
  method Get(r: Reader, n: nat) returns (res: Result<(nat, Reader)>)
    ensures res == Read(r, n)
  {
    var sliced := Slice(r.bits, r.offset, r.offset + n, None);
    var portion := sliced.value;
    var v :- IntOf(portion);
    return Ok((v, Reader(r.bits, r.offset + n)));
  }

  /** Two successive reads of a and then b bits give the high and the low
      part of one read of a + b bits. */
  lemma ReadConcat(r: Reader, a: nat, b: nat)
    requires Read(r, a).Ok? && Read(Read(r, a).value.1, b).Ok?
    ensures Read(r, a + b).Ok?
    ensures Read(r, a + b).value.0 == Shl(Read(r, a).value.0, b) + Read(Read(r, a).value.1, b).value.0
    ensures Read(r, a + b).value.1 == Read(Read(r, a).value.1, b).value.1
  {
    var r1 := Read(r, a).value.1;
    CanReadJoin(r, a, b);
    BitsValueSplit(r.bits.backing, Cursor(r), a, Cursor(r1), b, a + b);
  }

  /** Reads of a bits and then b bits that both stay inside the backing bytes
      make a read of a + b bits that does. */
  lemma CanReadJoin(r: Reader, a: nat, b: nat)
    requires CanRead(r, a) && CanRead(Reader(r.bits, r.offset + a), b)
    ensures CanRead(r, a + b)
  {
  }

  /** When a + b bits can be read and b >= 1, the first a of them can, and
      then the next b. */
  lemma CanReadParts(r: Reader, a: nat, b: nat)
    requires b >= 1 && CanRead(r, a + b)
    ensures CanRead(r, a) && CanRead(Reader(r.bits, r.offset + a), b)
  {
  }

  /** Conversely, a successful read of a + b bits (b >= 1) can be split into
      two successful reads whose results it is made of; the second is below
      2^b, so the first is the whole shifted right by b and the second its low
      b bits (`ShlAddParts`). */
  lemma ReadSplit(r: Reader, a: nat, b: nat)
    requires b >= 1 && Read(r, a + b).Ok?
    ensures Read(r, a).Ok? && Read(Read(r, a).value.1, b).Ok?
    ensures Read(r, a + b).value.0 == Shl(Read(r, a).value.0, b) + Read(Read(r, a).value.1, b).value.0
    ensures Read(Read(r, a).value.1, b).value.0 < Pow2(b)
  {
    CanReadParts(r, a, b);
    var r1 := Read(r, a).value.1;
    BitsValueSplit(r.bits.backing, Cursor(r), a, Cursor(r1), b, a + b);
    BitsValueBound(r1.bits.backing, Cursor(r1), b);
  }

  /** The same split in terms of shifts: the first a bits are the whole
      shifted right by b, and the next b bits are its low b bits. */
  lemma ReadHighLow(r: Reader, a: nat, b: nat)
    requires b >= 1 && Read(r, a + b).Ok?
    ensures Read(r, a).Ok? && Read(Read(r, a).value.1, b).Ok?
    ensures Read(r, a).value.0 == Shr(Read(r, a + b).value.0, b)
    ensures Read(Read(r, a).value.1, b).value.0 == Mask(Read(r, a + b).value.0, b)
  {
    ReadSplit(r, a, b);
    ShlAddParts(Read(r, a).value.0, Read(Read(r, a).value.1, b).value.0, b, Read(r, a + b).value.0);
  }

  /** A read of zero bits past the last whole byte fails, although it would
      return no bits: the conversion still fetches the byte the cursor is in. */
  lemma ReadZeroAtEnd(r: Reader)
    requires Cursor(r) == 8 * |r.bits.backing|
    ensures Read(r, 0) == Err(TruncatedBuffer)
  {
  }

  /** Indexing one bit agrees with converting the one-bit trim to an integer,
      failure included. */
  lemma BitAtIsOneBitValue(b: Bits, k: nat)
    ensures Value(Trim(b, k, k + 1)) == BitAt(b, k)
  {
    var t := Trim(b, k, k + 1);
    if BitAt(b, k).Ok? {
      var i := b.bitOffset + k;
      BitOfByte(b.backing, i, i / 8, i % 8);
      assert BitsValue(t.backing, t.bitOffset, 1) == BitOf(b.backing, i);
    }
  }
}
