/**
 * The address-range test the video plugin uses to decide whether a swap request concerns
 * the frame buffer being drawn: two half-open `u32` address ranges, and their upper ends
 * computed in wrapping `u32` arithmetic.
 */
module VideoRanges {
  import opened Arith

  const U32_MODULUS: nat := 0x1_0000_0000

  newtype u32 = x: int | 0 <= x < 0x1_0000_0000

  /** `a + b` on `u32`: the sum when it fits, otherwise the sum less 2^32. */
  function Add32(a: u32, b: u32): (r: u32)
    ensures a as int + b as int < U32_MODULUS ==> r as int == a as int + b as int
    ensures a as int + b as int >= U32_MODULUS ==> r as int == a as int + b as int - U32_MODULUS
  {
    ((a as int + b as int) % U32_MODULUS) as u32
  }

  /** `a * b` on `u32`: the product when it fits; a wrapped product is never larger. */
  function Mul32(a: u32, b: u32): (r: u32)
    ensures a as int * b as int < U32_MODULUS ==> r as int == a as int * b as int
    ensures r as int <= a as int * b as int
  {
    ModAtMost(a as int * b as int, U32_MODULUS);
    ((a as int * b as int) % U32_MODULUS) as u32
  }

  /**
   * `addrRangesOverlap`: whether `[aLower, aUpper)` and `[bLower, bUpper)` overlap. Neither
   * range starts at or past the other's end.
   */
  function AddrRangesOverlap(aLower: u32, aUpper: u32, bLower: u32, bUpper: u32): (r: bool)
    ensures r <==> aLower < bUpper && bLower < aUpper
    // the ranges are half-open: ranges that only touch do not overlap
    ensures aUpper == bLower || bUpper == aLower ==> !r
  {
    !((aLower >= bUpper) || (bLower >= aUpper))
  }

  /** Address `x` lies in the half-open range `[lower, upper)`. */
  predicate InRange(x: int, lower: u32, upper: u32) {
    lower as int <= x < upper as int
  }

  /** The number of bytes of a `width` by `height` frame buffer of two-byte pixels. */
  function FrameBytes(width: u32, height: u32): nat {
    2 * width as nat * height as nat
  }

  /** Address `x` is a byte of the frame buffer of that size at `addr`, ignoring wrap-around. */
  predicate InFrame(x: int, addr: u32, width: u32, height: u32) {
    addr as int <= x < addr as int + FrameBytes(width, height)
  }

  /** The test does not depend on which range comes first. */
  lemma OverlapSymmetric(aLower: u32, aUpper: u32, bLower: u32, bUpper: u32)
    ensures AddrRangesOverlap(aLower, aUpper, bLower, bUpper) == AddrRangesOverlap(bLower, bUpper, aLower, aUpper)
  {}

  /** For non-empty ranges the test holds exactly when some address lies in both. */
  lemma OverlapIffSharedAddress(aLower: u32, aUpper: u32, bLower: u32, bUpper: u32)
    requires aLower < aUpper && bLower < bUpper
    ensures AddrRangesOverlap(aLower, aUpper, bLower, bUpper)
      <==> exists x :: InRange(x, aLower, aUpper) && InRange(x, bLower, bUpper)
  {
    if AddrRangesOverlap(aLower, aUpper, bLower, bUpper) {
      var x := if aLower < bLower then bLower as int else aLower as int;
      assert InRange(x, aLower, aUpper) && InRange(x, bLower, bUpper);
    }
  }

  /**
   * An empty range `[l, l)` still passes the test against any range that strictly
   * contains `l`: the shared-address reading needs both ranges non-empty.
   */
  lemma EmptyRangeInside(l: u32, bLower: u32, bUpper: u32)
    requires bLower < l < bUpper
    ensures AddrRangesOverlap(l, l, bLower, bUpper)
    ensures !exists x :: InRange(x, l, l) && InRange(x, bLower, bUpper)
  {}

  /** The upper end `addr + 2 * width * height` of a frame buffer, evaluated in `u32`. */
  function RangeUpper(addr: u32, width: u32, height: u32): (r: u32)
    ensures r as int == (addr as int + FrameBytes(width, height)) % U32_MODULUS
  {
    MulMod(2 * width as int, height as int, U32_MODULUS);
    AddMod(addr as int, FrameBytes(width, height), U32_MODULUS);
    Add32(addr, Mul32(Mul32(2, width), height))
  }

  /**
   * When neither range end wraps and both frame buffers are non-empty, the overlap test on
   * their `u32` range ends holds exactly when some byte of memory belongs to both.
   */
  lemma FramesOverlapIffShared(xfbAddr: u32, fbWidth: u32, fbHeight: u32,
                               reqAddr: u32, reqWidth: u32, reqHeight: u32)
    requires 0 < FrameBytes(fbWidth, fbHeight) && xfbAddr as int + FrameBytes(fbWidth, fbHeight) < U32_MODULUS
    requires 0 < FrameBytes(reqWidth, reqHeight) && reqAddr as int + FrameBytes(reqWidth, reqHeight) < U32_MODULUS
    ensures AddrRangesOverlap(xfbAddr, RangeUpper(xfbAddr, fbWidth, fbHeight),
                              reqAddr, RangeUpper(reqAddr, reqWidth, reqHeight)) <==>
      exists x :: InFrame(x, xfbAddr, fbWidth, fbHeight) && InFrame(x, reqAddr, reqWidth, reqHeight)
  {
    var aUpper, bUpper := RangeUpper(xfbAddr, fbWidth, fbHeight), RangeUpper(reqAddr, reqWidth, reqHeight);
    assert aUpper as int == xfbAddr as int + FrameBytes(fbWidth, fbHeight);
    assert bUpper as int == reqAddr as int + FrameBytes(reqWidth, reqHeight);
    OverlapIffSharedAddress(xfbAddr, aUpper, reqAddr, bUpper);
    forall x ensures InRange(x, xfbAddr, aUpper) == InFrame(x, xfbAddr, fbWidth, fbHeight)
      && InRange(x, reqAddr, bUpper) == InFrame(x, reqAddr, reqWidth, reqHeight) {}
  }

  /** Neither frame buffer is empty and neither range end wraps. */
  predicate PlainFrames(xfbAddr: u32, fbWidth: u32, fbHeight: u32, reqAddr: u32, reqWidth: u32, reqHeight: u32) {
    0 < FrameBytes(fbWidth, fbHeight) && xfbAddr as int + FrameBytes(fbWidth, fbHeight) < U32_MODULUS &&
    0 < FrameBytes(reqWidth, reqHeight) && reqAddr as int + FrameBytes(reqWidth, reqHeight) < U32_MODULUS
  }

  /**
   * `VideoFifo_CheckSwapRequestAt`'s test: does the frame buffer at `xfbAddr` overlap the
   * one of the pending swap request? For non-empty frame buffers whose ends do not wrap,
   * it holds exactly when the two share a byte of memory.
   */
  function SwapRequestConcerns(xfbAddr: u32, fbWidth: u32, fbHeight: u32,
                               reqAddr: u32, reqWidth: u32, reqHeight: u32): (r: bool)
    ensures PlainFrames(xfbAddr, fbWidth, fbHeight, reqAddr, reqWidth, reqHeight) ==>
      (r <==> exists x :: InFrame(x, xfbAddr, fbWidth, fbHeight) && InFrame(x, reqAddr, reqWidth, reqHeight))
  {
    var aUpper, bUpper := RangeUpper(xfbAddr, fbWidth, fbHeight), RangeUpper(reqAddr, reqWidth, reqHeight);
    if PlainFrames(xfbAddr, fbWidth, fbHeight, reqAddr, reqWidth, reqHeight) then
      FramesOverlapIffShared(xfbAddr, fbWidth, fbHeight, reqAddr, reqWidth, reqHeight);
      AddrRangesOverlap(xfbAddr, aUpper, reqAddr, bUpper)
    else
      AddrRangesOverlap(xfbAddr, aUpper, reqAddr, bUpper)
  }

  /**
   * The range end may wrap: every frame buffer that ends exactly at the top of the address
   * space gets upper end 0, so the test then finds it overlapping no range at all.
   */
  lemma RangeUpperWraps(addr: u32, width: u32, height: u32)
    requires addr as int + FrameBytes(width, height) == U32_MODULUS
    ensures RangeUpper(addr, width, height) == 0
    ensures forall bLower: u32, bUpper: u32 :: !AddrRangesOverlap(addr, RangeUpper(addr, width, height), bLower, bUpper)
  {}
}
