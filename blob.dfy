/**
 * The read-only blob reader contract every container kind implements, and the big-endian
 * field reader layered on top of it.
 */
module Blob {
  import opened BigEndian

  /** The kinds of container a reader can stand for. */
  datatype BlobType = Plain | Drive | Directory | Gcz | Ciso | Wbfs

  datatype Option<T> = None | Some(value: T)

  /**
   * A reader, seen through its interface: its kind, the size of the underlying storage,
   * the logical bytes it exposes, and the logical offsets whose storage cannot be read
   * or decoded (an I/O or decompression failure when a read touches them).
   */
  datatype BlobReader = BlobReader(blobType: BlobType, rawSize: nat, data: seq<uint8>, unreadable: set<nat>)
  {
    /** The logical size: what a consumer sees, after any decompression. */
    function GetDataSize(): (n: nat)
      // no read that succeeds reaches past the logical size
      ensures forall offset: nat, size: nat :: CanRead(offset, size) ==> offset + size <= n
    {
      |data|
    }

    function GetRawSize(): nat { rawSize }

    function GetBlobType(): BlobType { blobType }

    /** Whether a read of `size` bytes at `offset` can be served. */
    predicate CanRead(offset: nat, size: nat) {
      offset + size <= |data| && forall p :: p in unreadable ==> !(offset <= p < offset + size)
    }

    /**
     * `Read(offset, size)`: exactly `size` bytes starting at logical `offset`, or failure
     * when the range runs past the logical size or touches unreadable storage.
     */
    function Read(offset: nat, size: nat): (r: Option<seq<uint8>>)
      ensures r.Some? <==> CanRead(offset, size)
      ensures r.Some? ==> |r.value| == size && forall i :: 0 <= i < size ==> r.value[i] == data[offset + i]
    {
      if CanRead(offset, size) then Some(data[offset..offset + size]) else None
    }
  }

  /**
   * `ReadSwapped<T>` for a `T` of `width` bytes: one read of `width` bytes at `offset`,
   * decoded most significant byte first. `buffer` is the caller's variable; it comes back
   * unchanged when the read fails.
   */
  function ReadSwapped(reader: BlobReader, offset: nat, width: nat, buffer: nat): (r: (bool, nat))
    // it fails, leaving the buffer untouched, exactly when the underlying read fails
    ensures !r.0 <==> !reader.CanRead(offset, width)
    ensures !r.0 ==> r.1 == buffer
    // on success the stored value fits the field and its big-endian bytes are the blob's
    ensures r.0 ==> r.1 < Pow256(width) && ToBigEndian(r.1, width) == reader.data[offset..offset + width]
  {
    match reader.Read(offset, width)
    case None => (false, buffer)
    case Some(bytes) =>
      EncodeDecode(bytes);
      (true, FromBigEndian(bytes))
  }

  /** Byte at `offset` is the most significant: it contributes `data[offset] * 256^(width-1)`. */
  lemma ReadSwappedMostSignificantFirst(reader: BlobReader, offset: nat, width: nat, buffer: nat)
    requires width > 0 && ReadSwapped(reader, offset, width, buffer).0
    ensures ReadSwapped(reader, offset, width, buffer).1
      == reader.data[offset] as nat * Pow256(width - 1) + FromBigEndian(reader.data[offset + 1..offset + width])
  {
    var bytes := reader.Read(offset, width).value;
    MostSignificantFirst(bytes);
    assert bytes[1..] == reader.data[offset + 1..offset + width];
  }
}
