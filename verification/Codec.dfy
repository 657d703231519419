/**
 The gRPC codec around the generated code: buffers come from the heap or from a pool, are filled in place,
 and are handed over or returned.
 */
module Codec {
  import opened Bytes
  import opened Varint
  import opened Messages
  import opened RoundTrip
  import opened Marshal

  /** `mem.IsBelowBufferPoolingThreshold`: at most 1 KiB. */
  const POOLING_THRESHOLD: nat := 1024

  /** A buffer pool. A buffer it lends may hold anything. */
  class BufferPool {
    var lent: set<array<Byte>>

    constructor ()
      ensures lent == {}
    {
      lent := {};
    }

    method Get(size: nat) returns (buf: array<Byte>)
      modifies this
      ensures fresh(buf) && buf.Length == size
      ensures lent == old(lent) + {buf}
    {
      buf := new Byte[size];
      lent := lent + {buf};
    }

    method Put(buf: array<Byte>)
      modifies this
      ensures lent == old(lent) - {buf}
    {
      lent := lent - {buf};
    }
  }

  datatype Encoded = Encoded(data: array<Byte>) | SizeMismatch(written: nat, expected: nat)

  /**
   `vtProtoCodec.Marshal`. Whatever the buffer held, success hands over exactly the request's bytes; the size
   test fails exactly for a request with a oneof wrapper holding nil, and then the buffer goes back.
   */
  method MarshalToBuffer(m: WriteRequest, pool: BufferPool) returns (r: Encoded)
    modifies pool
    ensures r.Encoded? <==> WellWrappedRequest(m)
    ensures r.Encoded? ==> fresh(r.data) && r.data[..] == RequestBytes(m)
    ensures r.Encoded? && ValidRequest(m) && |RequestBytes(m)| <= 0x7FFF_FFFF_FFFF_FFFF ==> DecodeRequest(NEW_REQUEST, r.data[..]) == Ok(m)
    ensures pool.lent == if r.Encoded? && r.data.Length > 1024 then old(pool.lent) + {r.data} else old(pool.lent)
    ensures r.SizeMismatch? ==> r.written == |RequestBytes(m)| < r.expected == RequestSize(m)
  {
    hide RequestBytes, RequestSize, WellWrappedRequest, Splice, ValidRequest, DecodeRequest;
    var size := SizeRequest(m);
    RequestSizeIsLength(m);
    if ValidRequest(m) && |RequestBytes(m)| <= MAX_LEN {
      RequestRoundTrip(m);
    }
    if size <= POOLING_THRESHOLD {
      var buffer := new Byte[size];
      ghost var dirty := buffer[..];
      var written := MarshalRequest(m, buffer, size);
      if written != size {
        return SizeMismatch(written, size);
      }
      SpliceAll(dirty, RequestBytes(m));
      return Encoded(buffer);
    }
    var pooled := pool.Get(size);
    ghost var dirty := pooled[..];
    var written := MarshalRequest(m, pooled, size);
    if written != size {
      pool.Put(pooled);
      return SizeMismatch(written, size);
    }
    SpliceAll(dirty, RequestBytes(m));
    return Encoded(pooled);
  }

  lemma SpliceAll(s: seq<Byte>, bytes: seq<Byte>)
    requires |bytes| == |s|
    ensures Splice(s, 0, bytes) == bytes
  {
  }
}
