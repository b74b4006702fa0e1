/**
 * The sparse, segmented key space of the glyph cache. A glyph code is split
 * into a segment index (`glyphCode >> 5`) and a slot (`glyphCode % 32`); the
 * quantized horizontal sub-pixel phase is OR-ed into bits 27 and 28 of the
 * segment index, which then keys the segment table.
 */
module KeyEncoding {

  /** A Java `int`, as its 32-bit two's-complement bit pattern. */
  type Int32 = bv32

  predicate NonNegative(n: Int32)
  {
    n < 0x8000_0000
  }

  const SEGSHIFT: bv32 := 5
  const SEGSIZE: bv32 := 32

  /** The phase bits of the segment index. */
  const SUBPIXEL_NONE: bv32 := 0
  const SUBPIXEL_ONEQUARTER: bv32 := 0x0800_0000     // bit 27
  const SUBPIXEL_ONEHALF: bv32 := 0x1000_0000        // bit 28
  const SUBPIXEL_THREEQUARTERS: bv32 := 0x1800_0000  // bits 27 and 28

  /** The four horizontal sub-pixel buckets a glyph is rasterized at. */
  datatype Phase = Zero | OneQuarter | OneHalf | ThreeQuarters

  /** The sub-pixel offset the rasterizer is asked for, for a bucket. */
  function Offset(p: Phase): (x: real)
    ensures 0.0 <= x < 1.0
  {
    match p
    case Zero => 0.0
    case OneQuarter => 0.25
    case OneHalf => 0.5
    case ThreeQuarters => 0.75
  }

  /** The bits a bucket sets in the segment index: only bits 27 and 28, and none for `Zero`. */
  function PhaseBits(p: Phase): (bits: bv32)
    ensures bits & !0x1800_0000 == 0
    ensures bits == 0 <==> p == Zero
  {
    match p
    case Zero => SUBPIXEL_NONE
    case OneQuarter => SUBPIXEL_ONEQUARTER
    case OneHalf => SUBPIXEL_ONEHALF
    case ThreeQuarters => SUBPIXEL_THREEQUARTERS
  }

  /**
   * The branch chain of `getCachedGlyph` that snaps the requested sub-pixel
   * x offset to a bucket: exactly 0 stays 0, anything else below 0.25
   * (negative fractions included) becomes 0, and the other buckets are the
   * half-open quarters, the last one open to the right.
   */
  function Quantize(x: real): (p: Phase)
    ensures x < 0.25 <==> p == Zero
    ensures 0.25 <= x < 0.5 <==> p == OneQuarter
    ensures 0.5 <= x < 0.75 <==> p == OneHalf
    ensures 0.75 <= x <==> p == ThreeQuarters
  {
    if x != 0.0 then
      if x < 0.25 then Zero
      else if x < 0.5 then OneQuarter
      else if x < 0.75 then OneHalf
      else ThreeQuarters
    else Zero
  }

  /** Java's `>>`: an arithmetic shift, which copies the sign bit into the vacated bits. */
  function ShiftRight(n: Int32, s: bv32): (r: Int32)
    requires s < 32
    ensures NonNegative(n) <==> NonNegative(r)
  {
    if NonNegative(n) then n >> s else (n >> s) | !(0xFFFF_FFFF >> s)
  }

  /** Java's `%`: the remainder of a division rounding toward zero, so it takes the sign of `n`. */
  function Remainder(n: Int32, d: Int32): (r: Int32)
    requires 0 < d < 0x8000_0000
  {
    if NonNegative(n) then n % d else 0 - ((0 - n) % d)
  }

  /** `segIndex` before any phase bit is OR-ed in. */
  function SegIndex(glyphCode: Int32): (seg: Int32)
    ensures NonNegative(glyphCode) ==> seg & 0x1800_0000 == 0
    ensures NonNegative(glyphCode) <==> NonNegative(seg)
  {
    ShiftRight(glyphCode, SEGSHIFT)
  }

  /** `subIndex`: the slot inside the segment. */
  function SubIndex(glyphCode: Int32): (slot: Int32)
    ensures NonNegative(glyphCode) ==> slot < SEGSIZE
    ensures !NonNegative(glyphCode) ==> slot == 0 || (!NonNegative(slot) && 0 - slot < SEGSIZE)
    ensures slot == 0 <==> glyphCode & 0x1F == 0
  {
    Remainder(glyphCode, SEGSIZE)
  }

  /** The key of the segment table for a glyph code rasterized at a phase. */
  function SegmentKey(glyphCode: Int32, p: Phase): (key: Int32)
    ensures NonNegative(glyphCode) ==>
      key & 0x1800_0000 == PhaseBits(p) && key & !0x1800_0000 == SegIndex(glyphCode)
  {
    SegIndex(glyphCode) | PhaseBits(p)
  }

  /** The slot of a non-negative glyph code, as an index into its segment. */
  function Slot(glyphCode: Int32): (i: nat)
    requires NonNegative(glyphCode)
    ensures i < 32
  {
    SubIndex(glyphCode) as int
  }

  /** The phase whose bits a key carries. */
  function PhaseOf(key: Int32): Phase
  {
    match key & 0x1800_0000
    case 0 => Zero
    case 0x0800_0000 => OneQuarter
    case 0x1000_0000 => OneHalf
    case _ => ThreeQuarters
  }

  /** The glyph code stored at a slot of the segment with the given key. */
  function CodeOf(key: Int32, slot: Int32): Int32
  {
    ((key & 0x03FF_FFFF) << SEGSHIFT) | (slot & 0x1F)
  }

  /**
   * For a non-negative code the segment index stays below bit 26, clear of
   * the phase bits, the slot is an index into a segment, and the two
   * together are the code again.
   */
  lemma SegmentBounds(glyphCode: Int32)
    requires NonNegative(glyphCode)
    ensures SegIndex(glyphCode) < 0x0400_0000
    ensures SubIndex(glyphCode) < SEGSIZE
    ensures glyphCode == SegIndex(glyphCode) * SEGSIZE + SubIndex(glyphCode)
  {
  }

  /** The key and slot of a non-negative glyph code decode back to the code and the phase. */
  lemma KeyRoundTrip(glyphCode: Int32, p: Phase)
    requires NonNegative(glyphCode)
    ensures CodeOf(SegmentKey(glyphCode, p), SubIndex(glyphCode)) == glyphCode
    ensures PhaseOf(SegmentKey(glyphCode, p)) == p
    ensures NonNegative(SegmentKey(glyphCode, p))
  {
  }

  /**
   * Distinct (glyph code, phase) pairs with non-negative codes land in
   * distinct (key, slot) pairs, and equal pairs in the same one.
   */
  lemma {:induction false} KeyInjective(g1: Int32, p1: Phase, g2: Int32, p2: Phase)
    requires NonNegative(g1) && NonNegative(g2)
    ensures (SegmentKey(g1, p1) == SegmentKey(g2, p2) && SubIndex(g1) == SubIndex(g2)) <==> (g1 == g2 && p1 == p2)
  {
    KeyRoundTrip(g1, p1);
    KeyRoundTrip(g2, p2);
  }

  /**
   * The encoding needs non-negative codes: for every negative code the
   * sign-extended segment index already has bits 27 and 28 set, so every
   * phase yields the same key; and unless the code is a multiple of 32, the
   * remainder, which takes the sign of the code, is a negative slot.
   */
  lemma NegativeCodeCollides(glyphCode: Int32, p: Phase)
    requires !NonNegative(glyphCode)
    ensures SegmentKey(glyphCode, p) == SegmentKey(glyphCode, Zero)
    ensures SubIndex(glyphCode) != 0 ==> !NonNegative(SubIndex(glyphCode))
  {
    NegativeKey(glyphCode, p);
    NegativeKey(glyphCode, Zero);
  }

  /** The key of a negative code is its segment index whatever the phase. */
  lemma NegativeKey(glyphCode: Int32, p: Phase)
    requires !NonNegative(glyphCode)
    ensures SegmentKey(glyphCode, p) == SegIndex(glyphCode)
  {
    SignFillsPhaseBits(glyphCode);
    PhaseBitsAbsorbed(SegIndex(glyphCode), p);
  }

  /** Java's `>>` copies the sign of a negative code into bits 27 and 28 of its segment index. */
  lemma SignFillsPhaseBits(glyphCode: Int32)
    requires !NonNegative(glyphCode)
    ensures SegIndex(glyphCode) & 0x1800_0000 == 0x1800_0000
  {
  }

  /** OR-ing phase bits into an index that already has both phase bits set changes nothing. */
  lemma PhaseBitsAbsorbed(seg: Int32, p: Phase)
    requires seg & 0x1800_0000 == 0x1800_0000
    ensures seg | PhaseBits(p) == seg
  {
  }

  /** A bucket's own offset quantizes back to the bucket. */
  lemma QuantizeOffset(p: Phase)
    ensures Quantize(Offset(p)) == p
  {
  }

  /** On non-negative offsets, quantization rounds down to a quarter (at most three quarters). */
  lemma QuantizeRoundsDown(x: real)
    requires 0.0 <= x
    ensures Offset(Quantize(x)) <= x
    ensures x < 1.0 ==> x < Offset(Quantize(x)) + 0.25
  {
  }
}
