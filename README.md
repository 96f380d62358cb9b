# Blob reading layer and sector cache

A Dafny model of the read-only "blob" layer of the emulator's disc I/O: the reader
contract every disc-image container implements (`IBlobReader`, `BlobType`), the
`SectorReader` decorator that turns a source producing only whole fixed-size blocks into
a reader of arbitrary byte ranges through a 32-slot block cache, the big-endian field
reader `CBlobBigEndianReader::ReadSwapped`, and, from the OpenGL video plugin, the
half-open address-range overlap test with its wrapping `u32` range ends.

Modules:

- `BigEndian` (bigendian.dfy): the byte type, `256^n`, big-endian decode and encode and
  their round trips.
- `Blob` (blob.dfy): `BlobType`, the reader contract as a value (`BlobReader`: kind, raw
  size, logical bytes, unreadable offsets) with a `Read` that fails exactly when the range
  runs past the logical size or touches unreadable storage, and `ReadSwapped` on top of it.
- `SectorCache` (sectorcache.dfy): the class `SectorReader` with `m_blocksize`, the slot
  contents `m_cache`, the slot tags `m_cache_tags` and a per-slot valid flag, all of them
  arrays of 32 entries. The concrete reader's `GetBlock` is the total function `source`.
  Its methods are `SetSectorSize`, `GetBlockData`, the default `ReadMultipleAlignedBlocks`
  and `Read`. `Valid()` holds the slot invariant: a valid slot sits in the slot its tag maps
  to, and it holds exactly that block's bytes.
- `VideoRanges` (videoranges.dfy): `u32` wrapping arithmetic, `addrRangesOverlap`, and the
  range test of `VideoFifo_CheckSwapRequestAt`.
- `Arith` (arith.dfy): division and multiplication facts used by the proofs.

Design decisions:

- The bodies of the `SectorReader` methods are in Blob.cpp, which is not part of this model.
  The header only says that `SectorReader` splits an operation into block operations
  (Blob.h:53-54). The split used here is the model's own choice. Let `first = offset / B`
  and `last = (offset + size - 1) / B`. A range inside one block is copied out of
  `GetBlockData(first)`. A range over several blocks is fetched with one
  `ReadMultipleAlignedBlocks(first, last - first + 1, temp)` into a private scratch buffer.
  That fetch covers the partial first and last blocks too, and the wanted slice is then
  copied out of the buffer. A read of size 0 succeeds and touches nothing.
- The header calls multi-block reads "not cached" (Blob.h:56) and calls
  `ReadMultipleAlignedBlocks` "uncached" (Blob.h:68). The same comment at line 68 gives its
  default as calling `GetBlockData` once per block. The model follows that default, so a
  multi-block read through the default does fill cache slots. Only what a read returns is
  specified here, and that does not depend on the cache.
- The header comment says "single entry cache", but it declares `CACHE_SIZE = 32` slots.
  The model uses direct-mapped replacement: block `n` lives in slot `n % 32`. No property
  about what a read returns depends on this rule. Every such property is stated as cache
  transparency: the result equals the source's blocks, whatever the cache held.
- `GetBlockData` returns a copy of the block, not a reference into the cache. The header
  says such a reference is invalidated by the next call, so a copy is what callers may use.
- `IBlobReader` and `BlobType` (Blob.h:27-50) are modelled as values, not as objects with
  virtual methods. `Blob.BlobType` has the six kinds of Blob.h:27-35. `Blob.BlobReader` is
  the abstraction of one reader: its kind (`GetBlobType`, Blob.h:42), its raw size
  (`GetRawSize`, Blob.h:43), its logical bytes (whose length is `GetDataSize`, Blob.h:44),
  and the offsets whose storage cannot be read. Its `Read` (Blob.h:46) is the model's
  definition of the interface's contract: exactly `size` logical bytes from `offset`, or
  failure when the range runs past the logical size or touches unreadable storage. The
  header declares `Read` pure virtual and promises nothing about when it fails.
  `SectorReader.AsBlobReader` presents a sector reader as such a value, and
  `AgreesWithBlobReader` and `ReadAsBlobReader` prove that the two agree.

## Model

| member | source | states |
|---|---|---|
| `BigEndian.FromBigEndian` | Source/Core/DiscIO/Blob.h:92 | the big-endian value of `n` bytes is below `256^n` |
| `BigEndian.MostSignificantFirst` | Source/Core/DiscIO/Blob.h:92 | the first byte weighs `256^(n-1)`, so the decode is most significant byte first |
| `BigEndian.DecodeEncode` | Source/Core/DiscIO/Blob.h:92 | decoding the `n`-byte encoding of a value below `256^n` gives that value back |
| `BigEndian.EncodeDecode` | Source/Core/DiscIO/Blob.h:92 | encoding the decoded value of a byte string in its width gives the same bytes back |
| `BigEndian.DecodeInjective` | Source/Core/DiscIO/Blob.h:92 | two byte strings of one width with the same value are equal |
| `Blob.BlobReader.GetDataSize` | Source/Core/DiscIO/Blob.h:44-46 | no read that succeeds reaches past the logical size |
| `Blob.ReadSwapped` | Source/Core/DiscIO/Blob.h:86-94 | fails and leaves the buffer unchanged exactly when the underlying read of `sizeof(T)` bytes fails; on success stores a value below `256^sizeof(T)` whose big-endian encoding is exactly the bytes `[offset, offset + sizeof(T))` |
| `Blob.ReadSwappedMostSignificantFirst` | Source/Core/DiscIO/Blob.h:90-93 | on success the byte at `offset` contributes `b * 256^(sizeof(T)-1)` and the rest is the value of the following bytes |
| `SectorCache.SlotOf` | Source/Core/DiscIO/Blob.h:75-78 | every block number maps to one of the 32 slots |
| `SectorCache.ConcatLength` | Source/Core/DiscIO/Blob.h:68-69 | `k` blocks of `B` bytes back to back have `k * B` bytes |
| `SectorCache.ConcatAt` | Source/Core/DiscIO/Blob.h:68-69 | byte `j` of the blocks from `b` on, back to back, is byte `j % B` of block `b + j / B` |
| `SectorCache.Copy` | Source/Core/DiscIO/Blob.h:68 | the `memcpy`: bytes `[at, at + n)` of the destination become the source bytes and every other byte is unchanged |
| `SectorCache.SectorReader.constructor` | Source/Core/DiscIO/Blob.h:66-67 | a new reader over a source of `B`-byte blocks keeps the slot invariant and caches nothing |
| `SectorCache.SectorReader.SetSectorSize` | Source/Core/DiscIO/Blob.h:66 | sets the block size, invalidates every slot and establishes the slot invariant |
| `SectorCache.SectorReader.CacheBound` | Source/Core/DiscIO/Blob.h:75-78 | the cache never holds more than 32 blocks |
| `SectorCache.SectorReader.CachedIff` | Source/Core/DiscIO/Blob.h:75-78 | a block is cached exactly when its own slot is valid and carries its tag, and then that slot holds the block's bytes |
| `SectorCache.SectorReader.GetBlockData` | Source/Core/DiscIO/Blob.h:72-78 | returns exactly block `n`, of length `m_blocksize`, whether it hit or missed; afterwards block `n`'s slot is valid, tagged `n` and holds block `n`, every other slot is unchanged, and the slot invariant still holds |
| `SectorCache.SectorReader.ReadMultipleAlignedBlocks` | Source/Core/DiscIO/Blob.h:68-69 | succeeds, and writes exactly `k * m_blocksize` bytes: blocks `b .. b+k-1` back to back, with the rest of `out` unchanged |
| `SectorCache.SectorReader.ReadWithinBlock` | Source/Core/DiscIO/Blob.h:53-56 | the single-block path: a range inside one block comes out as exactly the logical bytes of the range |
| `SectorCache.SectorReader.ReadAcrossBlocks` | Source/Core/DiscIO/Blob.h:53-56 | the multi-block path: a range over several blocks, fetched into a scratch buffer, comes out as exactly the logical bytes of the range |
| `SectorCache.SectorReader.Read` | Source/Core/DiscIO/Blob.h:53-62 | succeeds with `out[i] == Block((offset+i) / B)[(offset+i) % B]` for every `i < size`, on either path; the rest of `out` is untouched and the slot invariant is kept |
| `SectorCache.RepeatedRead` | Source/Core/DiscIO/Blob.h:72-78 | reading a range, then any other range, then the first range again gives the same bytes: eviction is never observable |
| `SectorCache.SectorReader.AgreesWithBlobReader` | Source/Core/DiscIO/Blob.h:46-62 | a range within `k` whole blocks is readable through the blob reader interface of the sector reader, and each byte it delivers is `Block((offset+i) / B)[(offset+i) % B]`, the byte `Read` is proved to deliver |
| `SectorCache.ReadAsBlobReader` | Source/Core/DiscIO/Blob.h:57-62 | a `SectorReader` is an `IBlobReader`: reading a range within the logical size through the cache gives exactly the bytes the blob reader interface promises |
| `VideoRanges.Add32` | Source/Plugins/Plugin_VideoOGL/Src/main.cpp:486 | `u32` addition gives the sum when it fits and the sum less 2^32 when it does not |
| `VideoRanges.Mul32` | Source/Plugins/Plugin_VideoOGL/Src/main.cpp:486 | `u32` multiplication gives the product when it fits, and never more than the product |
| `VideoRanges.AddrRangesOverlap` | Source/Plugins/Plugin_VideoOGL/Src/main.cpp:475-478 | holds exactly when `aLower < bUpper && bLower < aUpper`; ranges that only touch do not overlap |
| `VideoRanges.OverlapSymmetric` | Source/Plugins/Plugin_VideoOGL/Src/main.cpp:475-478 | swapping the two ranges does not change the result |
| `VideoRanges.OverlapIffSharedAddress` | Source/Plugins/Plugin_VideoOGL/Src/main.cpp:475-478 | for non-empty ranges the test holds exactly when some address lies in both half-open ranges |
| `VideoRanges.EmptyRangeInside` | Source/Plugins/Plugin_VideoOGL/Src/main.cpp:475-478 | an empty range strictly inside the other range still passes the test, though no address is shared |
| `VideoRanges.RangeUpper` | Source/Plugins/Plugin_VideoOGL/Src/main.cpp:486-488 | the range end `addr + 2 * w * h`, computed step by step in `u32`, is `(addr + 2*w*h) mod 2^32` |
| `VideoRanges.FramesOverlapIffShared` | Source/Plugins/Plugin_VideoOGL/Src/main.cpp:485-490 | when neither frame buffer is empty and neither range end wraps, the overlap test on the two `u32` ranges holds exactly when the two frame buffers share a byte |
| `VideoRanges.SwapRequestConcerns` | Source/Plugins/Plugin_VideoOGL/Src/main.cpp:485-490 | the test of `VideoFifo_CheckSwapRequestAt` holds, for non-empty frame buffers whose ends do not wrap, exactly when the drawn frame buffer and the requested one share a byte |
| `VideoRanges.RangeUpperWraps` | Source/Plugins/Plugin_VideoOGL/Src/main.cpp:486-488 | every frame buffer ending exactly at the top of the address space gets upper end 0, and the test then finds it overlapping no range |

## Left out

- `CreateBlobReader` (Blob.h:101) is declared only in the header. It inspects files, directories and devices to choose a reader, which is file-system I/O.
- `CompressFileToBlob`, `DecompressBlobToFile` and `CompressCB` (Blob.h:103-108) are declared only. They depend on a compression library, on file writes and on a floating-point progress fraction.
- The concrete readers (plain, drive, GCZ, CISO, WBFS) are not part of this model. Their `GetBlock` is the total function `SectorReader.source`. Their overrides of `ReadMultipleAlignedBlocks` are not modelled, and neither are their `GetBlobType`, `GetRawSize` and `GetDataSize`.
- `SectorCache.SectorReader.Read`: offsets, sizes and block numbers are unbounded naturals. The wrap-around of `u64` offset arithmetic and the `int` width of `m_blocksize` are not modelled. No check of the range against a logical size is modelled either: the header shows no such check, and the model assumes none. Because `GetBlock` cannot fail, every read succeeds.
- `SectorCache.SectorReader.GetBlockData`: in the source, `GetBlock` writes into the slot's own buffer in place. The model replaces the slot's contents by the block's bytes and returns a copy. Aliasing of the returned reference with later calls is therefore not modelled.
- `Blob.ReadSwapped`: `T` is represented by its width in bytes, and only unsigned values are modelled. The host-endian temporary and `Common::FromBigEndian` are replaced by an explicit big-endian decode.
- Thread safety (Blob.h:45) is a prohibition on concurrent calls. It is not modelled.
- The plugin lifecycle in main.cpp (`GetDllInfo`, `SetDllGlobals`, `Initialize`, `DoState`, `Video_Prepare`, `Shutdown` and the `Video_*` forwarders) is not modelled. These functions are thin calls into renderer, GL, FIFO and shader code that is not part of this model.
- The `DllConfig` resolution enumeration (main.cpp:167-310) is not modelled. It consists of GUI dialogs and display APIs.
- The swap and EFB request latches (main.cpp:451-566) are not modelled. They are cross-thread busy-waits on atomics. From `VideoFifo_CheckSwapRequestAt`, only the range test and its range ends are modelled; the latch read and the call to `VideoFifo_CheckSwapRequest` are not.
