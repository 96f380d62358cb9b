/**
 * The sector reader: a decorator that turns a source able to produce only whole,
 * fixed-size blocks into a reader of arbitrary byte ranges, keeping recently fetched
 * blocks in a small direct-mapped cache.
 */
module SectorCache {
  import opened BigEndian
  import opened Arith
  import Blob

  /** Number of cache slots. */
  const CACHE_SIZE: nat := 32

  /** The slot a block may occupy: the cache is direct-mapped. */
  function SlotOf(block_num: nat): (s: nat)
    ensures s < CACHE_SIZE
  {
    block_num % CACHE_SIZE
  }

  /** Blocks `first`, `first + 1`, ..., `first + count - 1` of `source`, back to back. */
  ghost function Concat(source: nat -> seq<uint8>, first: nat, count: nat): seq<uint8>
  {
    if count == 0 then [] else Concat(source, first, count - 1) + source(first + count - 1)
  }

  /** Every block of `source` has exactly `blocksize` bytes. */
  ghost predicate Uniform(source: nat -> seq<uint8>, blocksize: nat)
  {
    forall n: nat :: |source(n)| == blocksize
  }

  /** The concatenation of `count` blocks of `b` bytes has `count * b` bytes. */
  lemma {:induction false} ConcatLength(source: nat -> seq<uint8>, b: nat, first: nat, count: nat)
    requires Uniform(source, b)
    ensures |Concat(source, first, count)| == count * b
  {
    if count > 0 {
      ConcatLength(source, b, first, count - 1);
      assert count * b == (count - 1) * b + b;
    }
  }

  /** Byte `j` of the concatenation is byte `j % b` of block `first + j / b`. */
  lemma {:induction false} ConcatAt(source: nat -> seq<uint8>, b: nat, first: nat, count: nat, j: nat)
    requires b > 0 && Uniform(source, b) && j < count * b
    ensures |Concat(source, first, count)| == count * b
    ensures Concat(source, first, count)[j] == source(first + j / b)[j % b]
  {
    ConcatLength(source, b, first, count);
    assert count > 0;
    var prefix := Concat(source, first, count - 1);
    ConcatLength(source, b, first, count - 1);
    if j < (count - 1) * b {
      ConcatAt(source, b, first, count - 1, j);
    } else {
      var k := j - (count - 1) * b;
      assert k < b;
      DivModShift(count - 1, b, k);
      assert k / b == 0 && k % b == k;
    }
  }

  /** `memcpy(dst + at, src, |src|)`. */
  method Copy(dst: array<uint8>, at: nat, src: seq<uint8>)
    requires at + |src| <= dst.Length
    modifies dst
    ensures forall k :: 0 <= k < |src| ==> dst[at + k] == src[k]
    ensures forall k :: 0 <= k < dst.Length && !(at <= k < at + |src|) ==> dst[k] == old(dst[k])
  {
    forall k | 0 <= k < |src| {
      dst[at + k] := src[k];
    }
  }

  class SectorReader {
    /** The concrete reader's `GetBlock`: the bytes of each block, which it cannot fail to produce. */
    const source: nat -> seq<uint8>
    /** `m_blocksize`. */
    var blocksize: nat
    /** `m_cache`: the contents held in each slot. */
    const cache: array<seq<uint8>>
    /** `m_cache_tags`: the block number each slot holds. */
    const tags: array<nat>
    /** Whether a slot holds anything yet. */
    const valid: array<bool>

    ghost predicate Valid()
      reads this, cache, tags, valid
    {
      blocksize > 0 && Uniform(source, blocksize) &&
      cache.Length == CACHE_SIZE && tags.Length == CACHE_SIZE && valid.Length == CACHE_SIZE &&
      // slot invariant: a valid slot sits where its tag maps and holds exactly that block
      forall s :: 0 <= s < CACHE_SIZE && valid[s] ==> SlotOf(tags[s]) == s && cache[s] == source(tags[s])
    }

    /** Block `n` of the source. */
    ghost function Block(n: nat): (r: seq<uint8>)
      reads this
      requires Uniform(source, blocksize)
      ensures |r| == blocksize
    {
      source(n)
    }

    /** The byte at logical position `p`: byte `p % blocksize` of block `p / blocksize`. */
    ghost function Data(p: nat): uint8
      reads this
      requires blocksize > 0 && Uniform(source, blocksize)
    {
      Block(p / blocksize)[p % blocksize]
    }

    /** The blocks the cache holds in slots `0 .. k-1`. */
    ghost function CachedUpTo(k: nat): set<nat>
      reads this, tags, valid
      requires k <= tags.Length && k <= valid.Length
    {
      if k == 0 then {} else CachedUpTo(k - 1) + (if valid[k - 1] then {tags[k - 1]} else {})
    }

    /** The blocks the cache holds. */
    ghost function Cached(): set<nat>
      reads this, cache, tags, valid
      requires Valid()
    {
      CachedUpTo(CACHE_SIZE)
    }

    constructor (source: nat -> seq<uint8>, blocksize: nat)
      requires blocksize > 0 && Uniform(source, blocksize)
      ensures Valid() && fresh(cache) && fresh(tags) && fresh(valid)
      ensures this.source == source && this.blocksize == blocksize && Cached() == {}
    {
      this.source := source;
      cache := new seq<uint8>[CACHE_SIZE];
      tags := new nat[CACHE_SIZE];
      valid := new bool[CACHE_SIZE];
      new;
      SetSectorSize(blocksize);
    }

    /** `SetSectorSize`: fix the block size; nothing cached before is trusted afterwards. */
    method SetSectorSize(b: nat)
      requires b > 0 && Uniform(source, b)
      requires cache.Length == CACHE_SIZE && tags.Length == CACHE_SIZE && valid.Length == CACHE_SIZE
      modifies this`blocksize, valid
      ensures Valid() && blocksize == b && Cached() == {}
      ensures forall s :: 0 <= s < CACHE_SIZE ==> !valid[s]
    {
      blocksize := b;
      forall s | 0 <= s < CACHE_SIZE {
        valid[s] := false;
      }
      NoneCached(CACHE_SIZE);
    }

    lemma {:induction false} NoneCached(k: nat)
      requires k <= tags.Length && k <= valid.Length
      requires forall s :: 0 <= s < k ==> !valid[s]
      ensures CachedUpTo(k) == {}
    {
      if k > 0 {
        NoneCached(k - 1);
      }
    }

    /** The cache never holds more blocks than it has slots. */
    lemma {:induction false} CachedUpToBound(k: nat)
      requires k <= tags.Length && k <= valid.Length
      ensures |CachedUpTo(k)| <= k
    {
      if k > 0 {
        CachedUpToBound(k - 1);
      }
    }

    lemma CacheBound()
      requires Valid()
      ensures |Cached()| <= CACHE_SIZE
    {
      CachedUpToBound(CACHE_SIZE);
    }

    lemma {:induction false} CachedUpToIff(k: nat, n: nat)
      requires k <= tags.Length && k <= valid.Length
      ensures n in CachedUpTo(k) <==> exists s :: 0 <= s < k && valid[s] && tags[s] == n
    {
      if k > 0 {
        CachedUpToIff(k - 1, n);
        if valid[k - 1] && tags[k - 1] == n {
          assert 0 <= k - 1 < k && valid[k - 1] && tags[k - 1] == n;
        }
      }
    }

    /**
     * A block is cached exactly when its own slot is valid and tagged with it (a lookup is one
     * comparison), and a cached block's slot holds that block's bytes.
     */
    lemma CachedIff(n: nat)
      requires Valid()
      ensures n in Cached() <==> valid[SlotOf(n)] && tags[SlotOf(n)] == n
      ensures n in Cached() ==> cache[SlotOf(n)] == Block(n)
    {
      CachedUpToIff(CACHE_SIZE, n);
    }

    /**
     * `GetBlockData`: block `n` through the cache. A hit and a miss return the same bytes;
     * afterwards block `n` is cached in its slot and every other slot is as it was.
     */
    method GetBlockData(n: nat) returns (data: seq<uint8>)
      requires Valid()
      modifies cache, tags, valid
      ensures Valid()
      ensures data == Block(n)
      ensures valid[SlotOf(n)] && tags[SlotOf(n)] == n && cache[SlotOf(n)] == Block(n)
      ensures forall s :: 0 <= s < CACHE_SIZE && s != SlotOf(n) ==>
        valid[s] == old(valid[s]) && tags[s] == old(tags[s]) && cache[s] == old(cache[s])
    {
      var slot := SlotOf(n);
      if !(valid[slot] && tags[slot] == n) {
        cache[slot] := source(n);
        tags[slot] := n;
        valid[slot] := true;
      }
      data := cache[slot];
    }

    /**
     * The default `ReadMultipleAlignedBlocks`: fetch blocks `first .. first + count - 1` one
     * by one and copy them into `out`, back to back.
     */
    method ReadMultipleAlignedBlocks(first: nat, count: nat, out: array<uint8>) returns (ok: bool)
      requires Valid() && count * blocksize <= out.Length
      modifies cache, tags, valid, out
      ensures Valid() && ok
      ensures |Concat(source, first, count)| == count * blocksize
      ensures out[..count * blocksize] == Concat(source, first, count)
      ensures forall k :: count * blocksize <= k < out.Length ==> out[k] == old(out[k])
    {
      var i, pos := 0, 0;
      while i < count
        invariant Valid() && i <= count && pos == i * blocksize <= count * blocksize
        invariant out[..pos] == Concat(source, first, i)
        invariant forall k :: count * blocksize <= k < out.Length ==> out[k] == old(out[k])
      {
        MulMono(i + 1, count, blocksize);
        assert (i + 1) * blocksize == pos + blocksize;
        var data := GetBlockData(first + i);
        ghost var before := out[..pos];
        Copy(out, pos, data);
        assert out[..pos] == before;
        assert out[..pos + blocksize] == out[..pos] + data;
        i, pos := i + 1, pos + blocksize;
      }
      ConcatLength(source, blocksize, first, count);
      ok := true;
    }

    /** Offset `offset + size - 1` lies in the block of `offset` only when the range fits in it. */
    lemma SameBlock(offset: nat, size: nat)
      requires blocksize > 0 && size > 0
      requires offset / blocksize == (offset + size - 1) / blocksize
      ensures offset % blocksize + size <= blocksize
    {
      var q, r := offset / blocksize, offset % blocksize;
      assert offset == q * blocksize + r;
      DivModShift(q, blocksize, r + size - 1);
    }

    /** A range ending in block `last` fits in the blocks `offset / blocksize .. last`. */
    lemma SpanFits(offset: nat, size: nat, last: nat)
      requires blocksize > 0 && size > 0 && last == (offset + size - 1) / blocksize
      ensures offset / blocksize <= last
      ensures offset % blocksize + size <= (last - offset / blocksize + 1) * blocksize
    {
      var q, r := offset / blocksize, offset % blocksize;
      var e := offset + size - 1;
      assert e == last * blocksize + e % blocksize;
      assert offset == q * blocksize + r;
      if q > last {
        MulMono(last + 1, q, blocksize);
      }
      assert (last - q + 1) * blocksize == (last + 1) * blocksize - q * blocksize;
    }

    /**
     * The reader this sector reader stands for, as seen through the blob reader interface,
     * when its logical size is `k` whole blocks: its logical bytes are blocks `0 .. k-1`.
     */
    ghost function AsBlobReader(kind: Blob.BlobType, rawSize: nat, k: nat): Blob.BlobReader
      reads this
      requires Uniform(source, blocksize)
    {
      Blob.BlobReader(kind, rawSize, Concat(source, 0, k), {})
    }

    /**
     * Within the logical size, the byte `Read` is specified to deliver at `offset + i` is the
     * byte the blob reader interface delivers there.
     */
    lemma AgreesWithBlobReader(kind: Blob.BlobType, rawSize: nat, k: nat, offset: nat, size: nat)
      requires blocksize > 0 && Uniform(source, blocksize) && offset + size <= k * blocksize
      ensures AsBlobReader(kind, rawSize, k).Read(offset, size).Some?
      ensures forall i :: 0 <= i < size ==> AsBlobReader(kind, rawSize, k).Read(offset, size).value[i] == Data(offset + i)
    {
      ConcatLength(source, blocksize, 0, k);
      forall i | 0 <= i < size
        ensures AsBlobReader(kind, rawSize, k).Read(offset, size).value[i] == Data(offset + i)
      {
        ConcatAt(source, blocksize, 0, k, offset + i);
      }
    }

    /** Within one block, position `offset + i` is byte `offset % blocksize + i` of block `offset / blocksize`. */
    lemma WithinBlockAt(offset: nat, i: nat)
      requires blocksize > 0 && Uniform(source, blocksize) && offset % blocksize + i < blocksize
      ensures Data(offset + i) == Block(offset / blocksize)[offset % blocksize + i]
    {
      var q, r := offset / blocksize, offset % blocksize;
      assert offset == q * blocksize + r;
      DivModUnique(offset + i, blocksize, q, r + i);
    }

    /** Position `offset + i` is byte `offset % blocksize + i` of the blocks from `offset / blocksize` on. */
    lemma AcrossBlocksAt(offset: nat, count: nat, i: nat)
      requires blocksize > 0 && Uniform(source, blocksize) && offset % blocksize + i < count * blocksize
      ensures |Concat(source, offset / blocksize, count)| == count * blocksize
      ensures Data(offset + i) == Concat(source, offset / blocksize, count)[offset % blocksize + i]
    {
      var q, r := offset / blocksize, offset % blocksize;
      ConcatAt(source, blocksize, q, count, r + i);
      assert offset + i == q * blocksize + (r + i);
      DivModShift(q, blocksize, r + i);
    }

    /** The single-block path of `Read`: copy the range out of the cached block. */
    method ReadWithinBlock(offset: nat, size: nat, out: array<uint8>)
      requires Valid() && size <= out.Length && offset % blocksize + size <= blocksize
      modifies cache, tags, valid, out
      ensures Valid()
      ensures forall i :: 0 <= i < size ==> out[i] == Data(offset + i)
      ensures forall i :: size <= i < out.Length ==> out[i] == old(out[i])
    {
      var pos := offset % blocksize;
      var data := GetBlockData(offset / blocksize);
      Copy(out, 0, data[pos..pos + size]);
      forall i | 0 <= i < size
        ensures out[i] == Data(offset + i)
      {
        WithinBlockAt(offset, i);
      }
    }

    /**
     * The multi-block path of `Read`: fetch the `count` blocks the range touches into a
     * private scratch buffer, never a cache slot, and copy the range out of it.
     */
    method ReadAcrossBlocks(offset: nat, size: nat, count: nat, out: array<uint8>) returns (ok: bool)
      requires Valid() && size <= out.Length && offset % blocksize + size <= count * blocksize
      modifies cache, tags, valid, out
      ensures Valid() && ok
      ensures forall i :: 0 <= i < size ==> out[i] == Data(offset + i)
      ensures forall i :: size <= i < out.Length ==> out[i] == old(out[i])
    {
      var pos := offset % blocksize;
      var temp := new uint8[count * blocksize];
      ok := ReadMultipleAlignedBlocks(offset / blocksize, count, temp);
      ghost var fetched := temp[..];
      Copy(out, 0, temp[pos..pos + size]);
      forall i | 0 <= i < size
        ensures out[i] == Data(offset + i)
      {
        assert out[i] == fetched[pos + i];
        AcrossBlocksAt(offset, count, i);
      }
    }

    /**
     * `Read`: serve `size` bytes from logical position `offset` into `out`. A range within
     * one block is copied out of the cached block; a range over several blocks is fetched
     * whole, block-aligned, into a scratch buffer and the wanted slice copied out of it.
     */
    method Read(offset: nat, size: nat, out: array<uint8>) returns (ok: bool)
      requires Valid() && size <= out.Length
      modifies cache, tags, valid, out
      ensures Valid() && ok
      ensures forall i :: 0 <= i < size ==> out[i] == Data(offset + i)
      ensures forall i :: size <= i < out.Length ==> out[i] == old(out[i])
    {
      if size == 0 {
        return true;
      }
      var first := offset / blocksize;
      var last := (offset + size - 1) / blocksize;
      if first == last {
        SameBlock(offset, size);
        ReadWithinBlock(offset, size, out);
        ok := true;
      } else {
        SpanFits(offset, size, last);
        ok := ReadAcrossBlocks(offset, size, last - first + 1, out);
      }
    }
  }

  /**
   * Cache eviction is never observable: reading a range, then any other range, then the
   * first range again gives the same bytes both times.
   */
  method RepeatedRead(r: SectorReader, offset: nat, size: nat, other_offset: nat, other_size: nat)
      returns (before: seq<uint8>, after: seq<uint8>)
    requires r.Valid()
    modifies r.cache, r.tags, r.valid
    ensures r.Valid() && |before| == size && before == after
  {
    var a := new uint8[size];
    var ok := r.Read(offset, size, a);
    before := a[..];
    var b := new uint8[other_size];
    ok := r.Read(other_offset, other_size, b);
    var c := new uint8[size];
    ok := r.Read(offset, size, c);
    after := c[..];
  }

  /**
   * A sector reader is a blob reader: reading a range within the logical size through the
   * cache gives exactly the bytes the blob reader interface promises for that range.
   */
  method ReadAsBlobReader(r: SectorReader, kind: Blob.BlobType, rawSize: nat, k: nat, offset: nat, size: nat)
      returns (bytes: seq<uint8>)
    requires r.Valid() && offset + size <= k * r.blocksize
    modifies r.cache, r.tags, r.valid
    ensures r.Valid() && Blob.Some(bytes) == r.AsBlobReader(kind, rawSize, k).Read(offset, size)
  {
    var out := new uint8[size];
    var ok := r.Read(offset, size, out);
    bytes := out[..];
    r.AgreesWithBlobReader(kind, rawSize, k, offset, size);
    var expected := r.AsBlobReader(kind, rawSize, k).Read(offset, size).value;
    assert forall i :: 0 <= i < size ==> bytes[i] == expected[i];
    assert bytes == expected;
  }
}
