/**
 * The `int`/`short`/`long` conversions of `ByteUtils`, which go through
 * `java.nio.ByteBuffer`: a value is written as its two's-complement bytes in
 * the requested order, and read back from the first bytes of an array.
 */
module ByteOrder {
  import opened Wrappers
  import opened JavaTypes
  import opened ByteUtils
  import Seqs

  datatype Order = BigEndian | LittleEndian

  /** A Java `short`. */
  type Int16 = x: int | -0x8000 <= x <= 0x7fff

  /** A Java `long`. */
  type Int64 = x: int | -0x8000_0000_0000_0000 <= x <= 0x7fff_ffff_ffff_ffff

  function Pow256(w: nat): (r: nat)
    ensures r >= 1
  {
    if w == 0 then 1 else 256 * Pow256(w - 1)
  }

  /** The `w` low-order base-256 digits of `u`, most significant first. */
  function EncodeBE(u: nat, w: nat): (r: Bytes)
    ensures |r| == w
  {
    if w == 0 then [] else EncodeBE(u / 256, w - 1) + [u % 256]
  }

  /** The unsigned value of a big-endian digit string. */
  function DecodeBE(bs: Bytes): (u: nat)
    ensures u < Pow256(|bs|)
  {
    if |bs| == 0 then 0
    else
      var hi := DecodeBE(bs[..|bs| - 1]);
      assert hi <= Pow256(|bs| - 1) - 1;
      assert hi * 256 <= Pow256(|bs| - 1) * 256 - 256;
      hi * 256 + bs[|bs| - 1]
  }

  lemma DivMod256(u: nat)
    ensures u == (u / 256) * 256 + u % 256
  {
  }

  lemma {:induction false} DecodeEncode(u: nat, w: nat)
    requires u < Pow256(w)
    ensures DecodeBE(EncodeBE(u, w)) == u
    decreases w
  {
    if w > 0 {
      var e := EncodeBE(u, w);
      assert e[..w - 1] == EncodeBE(u / 256, w - 1);
      assert u / 256 < Pow256(w - 1);
      DecodeEncode(u / 256, w - 1);
      DivMod256(u);
    }
  }

  lemma {:induction false} EncodeDecode(bs: Bytes)
    ensures EncodeBE(DecodeBE(bs), |bs|) == bs
    decreases |bs|
  {
    if |bs| > 0 {
      var n := |bs| - 1;
      var hi := DecodeBE(bs[..n]);
      var u := hi * 256 + bs[n];
      assert u / 256 == hi && u % 256 == bs[n];
      EncodeDecode(bs[..n]);
      assert bs == bs[..n] + [bs[n]];
    }
  }

  /** The bytes as `ByteBuffer` lays them out for the given order. */
  function Arrange(bs: Bytes, order: Order): (r: Bytes)
    ensures |r| == |bs|
  {
    if order == BigEndian then bs else Seqs.Reverse(bs)
  }

  lemma ArrangeTwice(bs: Bytes, order: Order)
    ensures Arrange(Arrange(bs, order), order) == bs
  {
    if order == LittleEndian {
      Seqs.ReverseReverse(bs);
    }
  }

  /** Half the range of a `w`-byte value: the first bit pattern with the sign bit set. */
  function Half(w: nat): (h: int)
    requires 1 <= w
    ensures h >= 1 && 2 * h == Pow256(w)
  {
    128 * Pow256(w - 1)
  }

  /** The `w`-byte two's-complement bit pattern of a value that fits in `w` bytes. */
  function TwosComplement(n: int, w: nat): (u: nat)
    requires 1 <= w && -Half(w) <= n < Half(w)
    ensures u < Pow256(w)
  {
    if n < 0 then n + Pow256(w) else n
  }

  /** The signed value of a `w`-byte two's-complement bit pattern. */
  function ToSigned(u: nat, w: nat): (n: int)
    requires 1 <= w
    requires u < Pow256(w)
    ensures -Half(w) <= n < Half(w)
  {
    if u >= Half(w) then u - Pow256(w) else u
  }

  /** `ByteBuffer.allocate(w).order(order).putX(n).array()`. */
  function Put(n: int, w: nat, order: Order): (r: Bytes)
    requires 1 <= w && -Half(w) <= n < Half(w)
    ensures |r| == w
  {
    Arrange(EncodeBE(TwosComplement(n, w), w), order)
  }

  /** `ByteBuffer.wrap(b).order(order).getX()` for a `w`-byte `X`: reads the first `w` bytes. */
  function Get(b: Bytes, w: nat, order: Order): (r: Result<int, JavaException>)
    requires 1 <= w
    ensures r.Success? <==> |b| >= w
    ensures r.Success? ==> -Half(w) <= r.value < Half(w)
  {
    if |b| < w then Failure(BufferUnderflow)
    else Success(ToSigned(DecodeBE(Arrange(b[..w], order)), w))
  }

  lemma {:induction false} GetPut(n: int, w: nat, order: Order)
    requires 1 <= w && -Half(w) <= n < Half(w)
    ensures Get(Put(n, w, order), w, order) == Success(n)
  {
    var u := TwosComplement(n, w);
    var e := EncodeBE(u, w);
    ArrangeTwice(e, order);
    var b := Put(n, w, order);
    assert b[..w] == b;
    DecodeEncode(u, w);
  }

  lemma {:induction false} PutGet(b: Bytes, w: nat, order: Order)
    requires 1 <= w <= |b|
    ensures Get(b, w, order).Success?
    ensures Put(Get(b, w, order).value, w, order) == b[..w]
  {
    var a := Arrange(b[..w], order);
    EncodeDecode(a);
    ArrangeTwice(b[..w], order);
  }

  /** `integerToByteArray(number, order)`. */
  function IntegerToByteArray(n: Int32, order: Order): (r: Bytes)
    ensures |r| == 4
  {
    Put(n, 4, order)
  }

  /** `toInteger(b, order)`; fewer than four bytes throw `BufferUnderflowException`. */
  function ToInteger(b: Bytes, order: Order): (r: Result<Int32, JavaException>)
    ensures r.Success? <==> |b| >= 4
  {
    match Get(b, 4, order)
    case Failure(e) => Failure(e)
    case Success(v) => assert v == ToSigned(DecodeBE(Arrange(b[..4], order)), 4); Success(v)
  }

  /** `shortToByteArray(number, order)`. */
  function ShortToByteArray(n: Int16, order: Order): (r: Bytes)
    ensures |r| == 2
  {
    Put(n, 2, order)
  }

  /** `toShort(b, order)`; fewer than two bytes throw `BufferUnderflowException`. */
  function ToShort(b: Bytes, order: Order): (r: Result<Int16, JavaException>)
    ensures r.Success? <==> |b| >= 2
  {
    match Get(b, 2, order)
    case Failure(e) => Failure(e)
    case Success(v) => Success(v)
  }

  /** `longToByteArray(number, order)`. */
  function LongToByteArray(n: Int64, order: Order): (r: Bytes)
    ensures |r| == 8
  {
    Put(n, 8, order)
  }

  /** `toLong(b, order)`; fewer than eight bytes throw `BufferUnderflowException`. */
  function ToLong(b: Bytes, order: Order): (r: Result<Int64, JavaException>)
    ensures r.Success? <==> |b| >= 8
  {
    match Get(b, 8, order)
    case Failure(e) => Failure(e)
    case Success(v) => Success(v)
  }

  lemma IntegerRoundTrip(n: Int32, order: Order)
    ensures ToInteger(IntegerToByteArray(n, order), order) == Success(n)
  {
    GetPut(n, 4, order);
  }

  lemma IntegerBytesRoundTrip(b: Bytes, order: Order)
    requires |b| >= 4
    ensures IntegerToByteArray(ToInteger(b, order).value, order) == b[..4]
  {
    PutGet(b, 4, order);
  }

  lemma ShortRoundTrip(n: Int16, order: Order)
    ensures ToShort(ShortToByteArray(n, order), order) == Success(n)
  {
    GetPut(n, 2, order);
  }

  lemma ShortBytesRoundTrip(b: Bytes, order: Order)
    requires |b| >= 2
    ensures ShortToByteArray(ToShort(b, order).value, order) == b[..2]
  {
    PutGet(b, 2, order);
  }

  lemma LongRoundTrip(n: Int64, order: Order)
    ensures ToLong(LongToByteArray(n, order), order) == Success(n)
  {
    GetPut(n, 8, order);
  }

  lemma LongBytesRoundTrip(b: Bytes, order: Order)
    requires |b| >= 8
    ensures LongToByteArray(ToLong(b, order).value, order) == b[..8]
  {
    PutGet(b, 8, order);
  }

  /** Big-endian puts the most significant byte first; little-endian reverses it. */
  lemma IntegerByteOrderExample()
    ensures IntegerToByteArray(0x0102_0304, BigEndian) == [1, 2, 3, 4]
    ensures IntegerToByteArray(0x0102_0304, LittleEndian) == [4, 3, 2, 1]
    ensures IntegerToByteArray(-1, BigEndian) == [0xff, 0xff, 0xff, 0xff]
  {
    assert EncodeBE(0x0102, 2) == [1, 2];
    assert EncodeBE(0x0102_0304, 4) == [1, 2, 3, 4] by {
      assert EncodeBE(0x01_0203, 3) == [1, 2, 3];
    }
    var b: Bytes := [1, 2, 3, 4];
    assert Seqs.Reverse(b) == [4, 3, 2, 1];
    assert TwosComplement(-1, 4) == 0xffff_ffff;
    assert EncodeBE(0xffff, 2) == [0xff, 0xff];
    assert EncodeBE(0xffff_ffff, 4) == [0xff, 0xff, 0xff, 0xff] by {
      assert EncodeBE(0xff_ffff, 3) == [0xff, 0xff, 0xff];
    }
  }
}
