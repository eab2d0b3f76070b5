/** The part of java.nio.ByteBuffer the Oak serializer and comparator use: a
    heap buffer with a position, a limit and a byte order, read and written by
    absolute getLong and putLong. */
module ByteBuffers {
  import opened LongCodec

  /** IndexOutOfBoundsException from an absolute get or put. */
  datatype BufferError = IndexOutOfBounds

  datatype Result<T> = Success(value: T) | Failure(error: BufferError)

  class ByteBuffer {
    /** The backing array. */
    const hb: array<Byte>
    var position: int
    var limit: int
    var order: ByteOrder

    /** 0 <= position <= limit <= capacity, as every buffer keeps. */
    predicate Valid()
      reads this
    {
      0 <= position <= limit <= hb.Length
    }

    /** getLong(index): the long whose bytes in this buffer's order are the
        eight at index, which must lie below the limit. */
    function GetLong(index: int): (r: Result<Long>)
      reads this, hb
      requires Valid()
      ensures r.Success? <==> 0 <= index && index + LONG_BYTES <= limit
      ensures r.Success? ==> Encode(r.value, order) == hb[index..index + LONG_BYTES]
    {
      if 0 <= index && index + LONG_BYTES <= limit then
        var bytes := hb[index..index + LONG_BYTES];
        Success(Decode(bytes, order))
      else
        Failure(IndexOutOfBounds)
    }

    /** putLong(index, value): value's bytes in this buffer's order replace the
        eight at index, which must lie below the limit; no other byte, and
        neither position nor limit, changes. */
    method PutLong(index: int, value: Long) returns (r: Result<()>)
      requires Valid()
      modifies hb
      ensures r.Success? <==> 0 <= index && index + LONG_BYTES <= limit
      ensures r.Success? ==> hb[..] == old(hb[..])[..index] + Encode(value, order) + old(hb[..])[index + LONG_BYTES..]
      ensures r.Failure? ==> hb[..] == old(hb[..])
      ensures r.Success? ==> GetLong(index) == Success(value)
    {
      if 0 <= index && index + LONG_BYTES <= limit {
        var bytes := Encode(value, order);
        forall k | 0 <= k < LONG_BYTES {
          hb[index + k] := bytes[k];
        }
        assert hb[..] == old(hb[..])[..index] + bytes + old(hb[..])[index + LONG_BYTES..];
        assert hb[index..index + LONG_BYTES] == bytes;
        DecodeEncode(value, order);
        r := Success(());
      } else {
        r := Failure(IndexOutOfBounds);
      }
    }
  }
}
