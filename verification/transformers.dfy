/** The value transformers of the binary decoders: `MSBZeroBytes`, the
    synchsafe integer of ID3v2 (seven payload bits per byte, most significant
    byte first), and `EnumTransformer`, the conversion of an integer to an
    enumeration or flag class and back. */
module Transformers {
  import opened Common
  import opened Arith

  /** `MSBZeroBytes.decode`: fold the values left to right, shifting the
      result up by seven bits before adding each one. The values are not
      masked: a value of 128 or more spills into the digit above. */
  function SynchsafeDecode(frm: seq<nat>): (r: nat)
    ensures r == 0 <==> forall i :: 0 <= i < |frm| ==> frm[i] == 0
    ensures |frm| > 0 ==> r >= frm[|frm| - 1]
  {
    if |frm| == 0 then 0 else SynchsafeDecode(frm[..|frm| - 1]) * 128 + frm[|frm| - 1]
  }

  /** `MSBZeroBytes(size).encode(value)`: the low `size` base-128 digits of
      the value, most significant first; higher digits are dropped. */
  function SynchsafeEncode(size: nat, value: nat): (r: seq<nat>)
    ensures |r| == size
    ensures forall i :: 0 <= i < |r| ==> r[i] < 128
  {
    if size == 0 then [] else SynchsafeEncode(size - 1, value / 128) + [value % 128]
  }

  /** A sequence in reverse order. */
  function Reverse<T>(s: seq<T>): (r: seq<T>)
    ensures |r| == |s|
  {
    if |s| == 0 then [] else [s[|s| - 1]] + Reverse(s[..|s| - 1])
  }

  /** `encode` as the source writes it: collect the digits least significant
      first, dividing the value by 128 each time, then reverse them. */
  method Encode(size: nat, value: nat) returns (r: seq<nat>)
    ensures r == SynchsafeEncode(size, value)
  {
    var res: seq<nat> := [];
    var v := value;
    var i := 0;
    while i < size
      invariant i <= size
      invariant SynchsafeEncode(size, value) == SynchsafeEncode(size - i, v) + Reverse(res)
    {
      var digit := v % 128;
      assert Reverse(res + [digit]) == [digit] + Reverse(res) by {
        assert (res + [digit])[..|res|] == res;
      }
      res := res + [digit];
      v := v / 128;
      i := i + 1;
    }
    return Reverse(res);
  }

  /** Digits below 128 read back as a value below 2^(7n). */
  lemma {:induction false} DecodeBound(frm: seq<nat>)
    requires forall i :: 0 <= i < |frm| ==> frm[i] < 128
    ensures SynchsafeDecode(frm) < Pow2(7 * |frm|)
    decreases |frm|
  {
    if |frm| > 0 {
      var n := |frm|;
      DecodeBound(frm[..n - 1]);
      Pow2Add(7, 7 * (n - 1));
      assert Pow2(7) == 128;
      var d := SynchsafeDecode(frm[..n - 1]);
      assert d * 128 + frm[n - 1] < 128 * Pow2(7 * (n - 1)) by {
        MulMono(d + 1, Pow2(7 * (n - 1)), 128);
      }
    }
  }

  /** Taking a value modulo 128 p is taking its quotient by 128 modulo p and
      putting the low digit back. */
  lemma ModSplit(v: nat, p: nat)
    requires p >= 1
    ensures v % (128 * p) == ((v / 128) % p) * 128 + v % 128
  {
    var q := (v / 128) / p;
    var r := (v / 128) % p;
    var m := v % 128;
    assert v / 128 == p * q + r;
    assert v == 128 * (v / 128) + m;
    assert v == (128 * p) * q + (r * 128 + m);
    DivModUnique(v, 128 * p, q, r * 128 + m);
  }

  lemma Pow2Seven(n: nat)
    requires n >= 1
    ensures Pow2(7 * n) == 128 * Pow2(7 * (n - 1))
  {
    Pow2Add(7, 7 * (n - 1));
    assert Pow2(7) == 128;
  }

  /** Encoding keeps the low `size` digits: decoding the encoding gives the
      value modulo 2^(7 size). */
  lemma {:induction false} DecodeEncode(size: nat, value: nat)
    ensures SynchsafeDecode(SynchsafeEncode(size, value)) == value % Pow2(7 * size)
    decreases size
  {
    if size == 0 {
      assert Pow2(0) == 1;
    } else {
      var enc := SynchsafeEncode(size, value);
      assert enc[..size - 1] == SynchsafeEncode(size - 1, value / 128);
      DecodeEncode(size - 1, value / 128);
      Pow2Seven(size);
      ModSplit(value, Pow2(7 * (size - 1)));
    }
  }

  /** A value that fits in `size` synchsafe bytes survives the round trip. */
  lemma RoundTrip(size: nat, value: nat)
    requires value < Pow2(7 * size)
    ensures SynchsafeDecode(SynchsafeEncode(size, value)) == value
  {
    DecodeEncode(size, value);
    DivModUnique(value, Pow2(7 * size), 0, value);
  }

  /** Digits below 128 are recovered by encoding their decoding. */
  lemma {:induction false} EncodeDecode(frm: seq<nat>)
    requires forall i :: 0 <= i < |frm| ==> frm[i] < 128
    ensures SynchsafeEncode(|frm|, SynchsafeDecode(frm)) == frm
    decreases |frm|
  {
    if |frm| > 0 {
      var n := |frm|;
      var init := frm[..n - 1];
      EncodeDecode(init);
      var d := SynchsafeDecode(frm);
      DivModUnique(d, 128, SynchsafeDecode(init), frm[n - 1]);
      assert frm == init + [frm[n - 1]];
    }
  }

  /** The size bytes `00 00 02 01` of an ID3v2 header stand for 257. */
  lemma DecodeExample()
    ensures SynchsafeDecode([0, 0, 2, 1]) == 257
  {
    assert [0, 0, 2, 1][..3] == [0, 0, 2];
    assert [0, 0, 2][..2] == [0, 0];
    assert [0, 0][..1] == [0];
    assert [0][..0] == [];
  }

  /** The class an `EnumTransformer` converts to: an `IntEnum` accepts only
      the values of its members, an `IntFlag` any combination of bits. */
  datatype EnumClass = IntEnum(members: set<nat>) | IntFlag

  /** `EnumTransformer.decode`: `klass(frm)`. */
  function EnumDecode(cls: EnumClass, frm: nat): (r: Result<nat>)
    ensures r.Ok? <==> cls.IntFlag? || frm in cls.members
    ensures r.Err? ==> r.error == InvalidEnumValue
    ensures r.Ok? ==> r.value == frm
  {
    match cls
    case IntFlag => Ok(frm)
    case IntEnum(members) => if frm in members then Ok(frm) else Err(InvalidEnumValue)
  }

  /** `EnumTransformer.encode`: `int(value)`. */
  function EnumEncode(value: nat): nat
  {
    value
  }

  /** A member encodes to an integer that decodes back to it, and a decoded
      value encodes back to the integer it came from. */
  lemma EnumRoundTrip(cls: EnumClass, value: nat)
    ensures (cls.IntFlag? || value in cls.members) ==> EnumDecode(cls, EnumEncode(value)) == Ok(value)
    ensures EnumDecode(cls, value).Ok? ==> EnumEncode(EnumDecode(cls, value).value) == value
  {
  }
}
