/** The eight bytes a Java long occupies in a ByteBuffer: the 64-bit two's
    complement of the value, most significant byte first in big-endian order
    (Java's default) and least significant first in little-endian order. */
module LongCodec {

  /** One byte of a buffer, as its unsigned value. */
  type Byte = x: int | 0 <= x < 256

  /** A Java long. */
  type Long = x: int | -0x8000_0000_0000_0000 <= x < 0x8000_0000_0000_0000

  /** Long.BYTES. */
  const LONG_BYTES := 8

  const TWO_63 := 0x8000_0000_0000_0000
  const TWO_64 := 0x1_0000_0000_0000_0000

  /** ByteOrder.BIG_ENDIAN and ByteOrder.LITTLE_ENDIAN. */
  datatype ByteOrder = BigEndian | LittleEndian

  function Pow256(n: nat): (p: nat)
    ensures p > 0
  {
    if n == 0 then 1 else 256 * Pow256(n - 1)
  }

  lemma Pow256Long()
    ensures Pow256(LONG_BYTES) == TWO_64
  {
    assert Pow256(2) == 0x1_0000;
    assert Pow256(4) == 0x1_0000_0000 by {
      assert Pow256(4) == 256 * (256 * Pow256(2));
    }
    assert Pow256(8) == 256 * (256 * (256 * (256 * Pow256(4))));
  }

  /** The n low-order bytes of u, most significant first. */
  function ToBytes(u: nat, n: nat): (bs: seq<Byte>)
    ensures |bs| == n
  {
    if n == 0 then [] else ToBytes(u / 256, n - 1) + [u % 256]
  }

  /** The unsigned number whose bytes, most significant first, are bs. */
  function FromBytes(bs: seq<Byte>): (u: nat)
    ensures u < Pow256(|bs|)
  {
    if bs == [] then 0
    else
      var init := FromBytes(bs[..|bs| - 1]);
      assert init * 256 + 255 < Pow256(|bs|) by {
        assert init + 1 <= Pow256(|bs| - 1);
        assert (init + 1) * 256 <= Pow256(|bs| - 1) * 256;
      }
      init * 256 + bs[|bs| - 1]
  }

  /** Reading back n bytes written for a number below 256^n gives the number. */
  lemma {:induction false} FromToBytes(u: nat, n: nat)
    requires u < Pow256(n)
    ensures FromBytes(ToBytes(u, n)) == u
  {
    if n > 0 {
      var q := u / 256;
      assert q < Pow256(n - 1) by {
        assert u < 256 * Pow256(n - 1);
      }
      FromToBytes(q, n - 1);
      var bs := ToBytes(u, n);
      assert bs[..n - 1] == ToBytes(q, n - 1);
      assert u == q * 256 + u % 256;
    }
  }

  /** Writing back the number read from bytes gives the same bytes. */
  lemma {:induction false} ToFromBytes(bs: seq<Byte>)
    ensures ToBytes(FromBytes(bs), |bs|) == bs
  {
    if bs != [] {
      var init := bs[..|bs| - 1];
      var last := bs[|bs| - 1];
      ToFromBytes(init);
      var u := FromBytes(bs);
      assert u == FromBytes(init) * 256 + last;
      assert u / 256 == FromBytes(init) && u % 256 == last;
      assert bs == init + [last];
    }
  }

  /** The 64-bit two's-complement bit pattern of v, as an unsigned number. */
  function Unsigned(v: Long): (u: nat)
    ensures u < TWO_64
    ensures (u - v) % TWO_64 == 0
  {
    if v < 0 then v + TWO_64 else v
  }

  /** The long whose bit pattern is u. */
  function Signed(u: nat): (v: Long)
    requires u < TWO_64
    ensures Unsigned(v) == u
  {
    if u < TWO_63 then u else u - TWO_64
  }

  function Reverse(s: seq<Byte>): (r: seq<Byte>)
    ensures |r| == |s|
    ensures forall i :: 0 <= i < |s| ==> r[i] == s[|s| - 1 - i]
  {
    seq(|s|, i requires 0 <= i < |s| => s[|s| - 1 - i])
  }

  /** Reversing the byte order twice gives the bytes back. */
  lemma ReverseReverse(s: seq<Byte>)
    ensures Reverse(Reverse(s)) == s
  {
  }

  /** putLong's bytes for v in the given byte order. */
  function Encode(v: Long, order: ByteOrder): (bs: seq<Byte>)
    ensures |bs| == LONG_BYTES
  {
    var big := ToBytes(Unsigned(v), LONG_BYTES);
    if order == BigEndian then big else Reverse(big)
  }

  /** getLong's value for eight bytes in the given byte order. */
  function Decode(bs: seq<Byte>, order: ByteOrder): (v: Long)
    requires |bs| == LONG_BYTES
    ensures Encode(v, order) == bs
  {
    var big := if order == BigEndian then bs else Reverse(bs);
    Pow256Long();
    ReverseReverse(bs);
    ToFromBytes(big);
    Signed(FromBytes(big))
  }

  /** getLong reads back what putLong wrote. */
  lemma DecodeEncode(v: Long, order: ByteOrder)
    ensures Decode(Encode(v, order), order) == v
  {
    Pow256Long();
    var big := ToBytes(Unsigned(v), LONG_BYTES);
    ReverseReverse(big);
    FromToBytes(Unsigned(v), LONG_BYTES);
  }

  /** Different longs are written as different bytes. */
  lemma EncodeInjective(v: Long, w: Long, order: ByteOrder)
    requires Encode(v, order) == Encode(w, order)
    ensures v == w
  {
    DecodeEncode(v, order);
    DecodeEncode(w, order);
  }

  /** The big-endian bytes, read as an unsigned number, are v modulo 2^64, and
      the little-endian bytes are the same bytes reversed. */
  lemma EncodeIsTwosComplement(v: Long)
    ensures FromBytes(Encode(v, BigEndian)) == Unsigned(v)
    ensures Encode(v, LittleEndian) == Reverse(Encode(v, BigEndian))
  {
    Pow256Long();
    FromToBytes(Unsigned(v), LONG_BYTES);
  }
}
