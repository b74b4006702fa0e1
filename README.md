# GlyphCache: a verified model of the JavaFX Prism glyph atlas cache

`com.sun.prism.impl.GlyphCache` keeps, for one font strike on one rendering
context, the rasterized glyphs that have been uploaded into a shared
1024×1024 mask texture (the atlas), and draws glyph runs from it.

This project models that class in Dafny:

- **Key encoding** (`KeyEncoding.dfy`). A glyph code is split into a segment
  index (`glyphCode >> 5`, Java's arithmetic shift) and a slot
  (`glyphCode % 32`, Java's truncating remainder). The requested sub-pixel x
  offset is snapped to one of four quarters, and the quarter is OR-ed into
  bits 27 and 28 of the segment index. The result keys `glyphDataMap`.
  Proofs show:
  - for non-negative codes, the encoding decodes back to the code and the
    phase, so it is injective;
  - for every negative code the four phases share one key, because the
    sign bits fill bits 27 and 28; and unless the code is a multiple of
    32, its slot is negative.
- **Cache entries** (`GlyphData.dfy`). `GlyphData` is the immutable entry.
  - A glyph with zero width or height is stored as whitespace: it has no
    rectangle.
  - A visible glyph gets a rectangle padded by a blank border of 1 on each
    edge.
- **The packer** (`Packer.dfy`). `RectanglePacker` is the shared atlas
  allocator, kept abstract. `add` either places the rectangle somewhere
  free inside the atlas, or reports that the atlas is full. On an empty
  atlas it always places a rectangle no larger than the atlas. `clear` frees
  everything.
- **The cache** (`GlyphCache.dfy`). Class `GlyphCache` has the segment map
  `glyphDataMap` (keys to 32-slot arrays) and a ghost log of the calls the
  cache makes to its collaborators.
  - `getCachedGlyph` is split into one method per stage:
    - hit;
    - segment creation;
    - asking the strike;
    - whitespace or visible glyph;
    - reserving space (a failed `add` leads to `clearAll` and one more
      `add`, whose answer is ignored);
    - the blank upload, which may throw and then gives `null`;
    - the slot write.
  - `clear` and `clearAll` are modelled as well.
  - Each glyph's turn of `render` is tied to the cache: `Render` returns the
    cache's observable state before and after every glyph, and each turn is
    a lookup at the glyph's own sub-pixel offset (`Fetched`), or, for the
    placeholder and every glyph after the break, no call and no change
    (`Turn`).
  - The abstract table `Table()` is what the rest of the contracts speak of.
- **Rendering** (`Render.dfy`, plus `Render` in the class). `render`'s loop
  is proved against a pure specification, `Walk`, over the entries the
  cache returned. Lemmas about `Walk` prove these independent
  characterisations:
  - which glyphs get a quad;
  - that the loop stops exactly at the first looked-up glyph right of the
    clip;
  - that colours are switched only when they change;
  - that every quad is drawn in its glyph's selection colour.

The glyph's pixels, the float geometry of a quad and the vertex buffer itself
are not modelled. `Render` returns, as ghost output, the sequence of
`SetColor` and `Quad(glyphIndex, …)` operations it sends to the vertex
buffer.

## Model

| member | source | states |
|---|---|---|
| KeyEncoding.Quantize | modules/graphics/src/main/java/com/sun/prism/impl/GlyphCache.java:247-260 | an offset below 0.25 (negatives and 0 included) is bucket 0, and [0.25,0.5), [0.5,0.75), [0.75,∞) are the other three buckets, each as an if-and-only-if |
| KeyEncoding.ShiftRight | modules/graphics/src/main/java/com/sun/prism/impl/GlyphCache.java:245 | Java's arithmetic `>>`: the result is non-negative exactly when the shifted value is |
| KeyEncoding.SegIndex | modules/graphics/src/main/java/com/sun/prism/impl/GlyphCache.java:245 | `glyphCode >> SEGSHIFT` keeps the code's sign, and for a non-negative code leaves bits 27 and 28 clear for the phase |
| KeyEncoding.Offset | modules/graphics/src/main/java/com/sun/prism/impl/GlyphCache.java:247-260 | the offset a bucket is rasterized at lies in [0, 1); `QuantizeOffset` shows it falls back into the same bucket |
| KeyEncoding.PhaseBits | modules/graphics/src/main/java/com/sun/prism/impl/GlyphCache.java:247-260 | the bits a bucket OR-s into the segment index are only bits 27 and 28, and are none exactly for the zero bucket |
| KeyEncoding.Remainder | modules/graphics/src/main/java/com/sun/prism/impl/GlyphCache.java:246 | Java's `%`: the remainder of the division rounded toward zero, which takes the sign of the dividend (its bounds for the divisor 32 are stated on `SubIndex`) |
| KeyEncoding.SubIndex | modules/graphics/src/main/java/com/sun/prism/impl/GlyphCache.java:246 | the slot of a non-negative code is below 32; the slot of a negative code is 0 or lies strictly between -32 and 0; the slot is 0 exactly when the code's low five bits are 0 |
| KeyEncoding.SegmentKey | modules/graphics/src/main/java/com/sun/prism/impl/GlyphCache.java:245-260 | for a non-negative code the key holds the phase in bits 27 and 28 and the segment index in all other bits |
| KeyEncoding.Slot | modules/graphics/src/main/java/com/sun/prism/impl/GlyphCache.java:246 | the slot of a non-negative code is an index into a 32-entry segment |
| KeyEncoding.SegmentBounds | modules/graphics/src/main/java/com/sun/prism/impl/GlyphCache.java:66-77 | for a non-negative code the segment index stays below bit 26, clear of the phase bits 27 and 28; the slot is below 32; index·32 + slot is the code |
| KeyEncoding.KeyRoundTrip | modules/graphics/src/main/java/com/sun/prism/impl/GlyphCache.java:72-77 | the key and slot decode back to the glyph code and the sub-pixel phase, and the key is non-negative |
| KeyEncoding.KeyInjective | modules/graphics/src/main/java/com/sun/prism/impl/GlyphCache.java:245-260 | two (code, phase) pairs with non-negative codes share a key and a slot if and only if they are equal |
| KeyEncoding.NegativeCodeCollides | modules/graphics/src/main/java/com/sun/prism/impl/GlyphCache.java:245-246 | for every negative code and every phase the key is the one phase 0 gives, and the slot is negative unless it is 0, so the encoding needs non-negative codes |
| KeyEncoding.QuantizeOffset | modules/graphics/src/main/java/com/sun/prism/impl/GlyphCache.java:247-260 | the offset a bucket rasterizes at quantizes back to that bucket |
| KeyEncoding.QuantizeRoundsDown | modules/graphics/src/main/java/com/sun/prism/impl/GlyphCache.java:247-260 | a non-negative offset is rounded down to its quarter, and an offset in [0,1) is less than a quarter above it |
| Packing.RectanglePacker.constructor | modules/graphics/src/main/java/com/sun/prism/impl/GlyphCache.java:109 | a new packer has the given size and nothing placed |
| Packing.RectanglePacker.Add | modules/graphics/src/main/java/com/sun/prism/impl/GlyphCache.java:304-309 | on success the rectangle keeps its size, was free inside the atlas and is recorded; on failure nothing changes and the rectangle keeps its position; an empty packer places every rectangle no larger than the atlas |
| Packing.RectanglePacker.Clear | modules/graphics/src/main/java/com/sun/prism/impl/GlyphCache.java:240 | after a clear no rectangle is placed |
| GlyphEntries.WhitespaceData | modules/graphics/src/main/java/com/sun/prism/impl/GlyphCache.java:276-279 | the entry of a glyph with zero width or height: origin and border 0, the glyph's advances, no rectangle |
| GlyphEntries.Visible | modules/graphics/src/main/java/com/sun/prism/impl/GlyphCache.java:275 | a glyph gets an atlas rectangle only when neither its width nor its height is zero (no contract; used by `Miss`) |
| GlyphEntries.VisibleData | modules/graphics/src/main/java/com/sun/prism/impl/GlyphCache.java:293-302 | the entry of a visible glyph: the mask origin, border 1, the glyph's advances and the rectangle the packer placed |
| GlyphEntries.PaddedRect | modules/graphics/src/main/java/com/sun/prism/impl/GlyphCache.java:293-298 | the rectangle asked of the packer: at the origin, the mask size plus the border on each edge |
| GlyphEntries.EntrySize | modules/graphics/src/main/java/com/sun/prism/impl/GlyphCache.java:276-302 | a visible glyph's entry, wherever it is placed, gives back the mask size once the border is taken off, and keeps the advances; a whitespace entry has no rectangle and keeps the advances |
| GlyphCaching.MissOutcome | modules/graphics/src/main/java/com/sun/prism/impl/GlyphCache.java:271-350 | what a miss may do once the key's segment is in the table: the strike is asked once; no glyph stores nothing and returns None; whitespace is stored with no packer call; a visible glyph gets its padded rectangle from the first add, free among the placed ones, or from the add after `clearAll`, which fails only for a rectangle larger than the atlas; the entry is stored and returned only if the blank upload succeeded; after `clearAll` the table may be empty |
| GlyphCaching.Fetched | modules/graphics/src/main/java/com/sun/prism/impl/GlyphCache.java:243-351 | one `getCachedGlyph` from an observable state to the next: a hit returns the stored entry and changes nothing; a miss is `MissOutcome` from the table with the key's segment added |
| GlyphCaching.Turn | modules/graphics/src/main/java/com/sun/prism/impl/GlyphCache.java:136-150 | one glyph of the run: after the break, or for the invisible placeholder, the cache is not asked and nothing changes; otherwise the glyph is `Fetched` at its pen's sub-pixel offset |
| GlyphCaching.TurnsPadded | modules/graphics/src/main/java/com/sun/prism/impl/GlyphCache.java:135-154 | the glyphs after the break are recorded as not looked up with the cache unchanged, and every glyph's `Turn` still holds |
| GlyphCaching.EmptySegment | modules/graphics/src/main/java/com/sun/prism/impl/GlyphCache.java:267 | a new segment has 32 slots, all empty |
| GlyphCaching.Lookup | modules/graphics/src/main/java/com/sun/prism/impl/GlyphCache.java:261-265 | an entry is found only when the key has a segment and that segment holds it at the slot |
| GlyphCaching.Store | modules/graphics/src/main/java/com/sun/prism/impl/GlyphCache.java:347 | `segment[subIndex] = data` on an existing segment; `StoreLookup` states it changes that one cell and no other |
| GlyphCaching.KeyOf | modules/graphics/src/main/java/com/sun/prism/impl/GlyphCache.java:244-261 | the map key of a code at a requested offset is its segment index with the quantized phase (no contract; `KeyRoundTrip` and `KeyInjective` state its properties) |
| GlyphCaching.Hit | modules/graphics/src/main/java/com/sun/prism/impl/GlyphCache.java:261-264 | `getCachedGlyph` returns from the table without rasterizing (no contract; `GetCachedGlyph` ensures a hit leaves the state unchanged) |
| GlyphCaching.ClearAllCalls | modules/graphics/src/main/java/com/sun/prism/impl/GlyphCache.java:236-241 | `clearAll` flushes the vertex buffer before clearing the context's glyph caches and then the packer (no contract; `ClearAll` ensures the log grows by exactly these) |
| GlyphCaching.ReserveCalls | modules/graphics/src/main/java/com/sun/prism/impl/GlyphCache.java:304-309 | one `add`, or a failed `add`, `clearAll` and exactly one retry whose result is not checked (no contract; `Reserve` ensures its log is this) |
| GlyphCaching.RasterizeCalls | modules/graphics/src/main/java/com/sun/prism/impl/GlyphCache.java:286-344 | a miss on a visible glyph reserves space, uploads the blank, and uploads the mask inside the border at the quantized offset only when the blank upload succeeded (no contract; `Rasterize` ensures its log is this) |
| GlyphCaching.WithSegment | modules/graphics/src/main/java/com/sun/prism/impl/GlyphCache.java:261-269 | after the segment fetch the key is present, no other key is added, and a new segment has 32 slots |
| GlyphCaching.WithSegmentKeepsLookups | modules/graphics/src/main/java/com/sun/prism/impl/GlyphCache.java:266-269 | inserting the empty segment on a miss changes no lookup |
| GlyphCaching.StoreLookup | modules/graphics/src/main/java/com/sun/prism/impl/GlyphCache.java:347 | writing one slot changes the lookup of that key and slot only |
| GlyphCaching.SameCell | modules/graphics/src/main/java/com/sun/prism/impl/GlyphCache.java:245-260 | two requests share a key and a slot if and only if they are for the same code in the same sub-pixel bucket |
| GlyphCaching.StoreIsolates | modules/graphics/src/main/java/com/sun/prism/impl/GlyphCache.java:261-269 | after a miss stores an entry, that code finds it at any offset in the same bucket, and every other code or bucket finds what it found before |
| GlyphCaching.GlyphCache.constructor | modules/graphics/src/main/java/com/sun/prism/impl/GlyphCache.java:92-112 | the cache starts with an empty table on a valid 1024×1024 packer |
| GlyphCaching.GlyphCache.GetCachedGlyph | modules/graphics/src/main/java/com/sun/prism/impl/GlyphCache.java:243-351 | a hit returns the stored entry and changes no observable state; a miss is `MissOutcome` from the table with the key's segment in place: it covers no glyph, whitespace, a visible glyph with a padded free rectangle or a retry after `clearAll`, and a failed upload that returns None; every returned entry is well formed |
| GlyphCaching.GlyphCache.FetchSegment | modules/graphics/src/main/java/com/sun/prism/impl/GlyphCache.java:261-269 | the hit is the table's lookup; a hit changes nothing; on a miss the key's segment is in the table and nothing else changed |
| GlyphCaching.GlyphCache.NewSegment | modules/graphics/src/main/java/com/sun/prism/impl/GlyphCache.java:267-269 | a fresh 32-slot empty segment is added under the key and nothing else changes |
| GlyphCaching.GlyphCache.Miss | modules/graphics/src/main/java/com/sun/prism/impl/GlyphCache.java:271-350 | the strike is asked once; then, per `MissOutcome`: no glyph caches nothing; whitespace is stored with no packer call; a visible glyph follows `AddVisible` |
| GlyphCaching.GlyphCache.AddVisible | modules/graphics/src/main/java/com/sun/prism/impl/GlyphCache.java:286-347 | the padded rectangle is reserved, and the uploads are logged in order; the entry is returned and stored exactly when the blank upload succeeded; if `clearAll` ran, the table may instead be empty |
| GlyphCaching.GlyphCache.Rasterize | modules/graphics/src/main/java/com/sun/prism/impl/GlyphCache.java:286-344 | the entry has the glyph's origin, border 1 and the reserved rectangle; the mask is uploaded inside the border only after a successful blank upload; the table is unchanged unless `clearAll` emptied it |
| GlyphCaching.GlyphCache.Reserve | modules/graphics/src/main/java/com/sun/prism/impl/GlyphCache.java:304-309 | a successful first add places a free rectangle; otherwise `clearAll` runs and a second add follows whose failure leaves the rectangle at the origin with the packer empty, and happens only for a rectangle larger than the atlas |
| GlyphCaching.GlyphCache.WriteSlot | modules/graphics/src/main/java/com/sun/prism/impl/GlyphCache.java:347 | the entry becomes the table's lookup at the key and slot if the segment is still in the table; a detached segment changes nothing |
| GlyphCaching.GlyphCache.Clear | modules/graphics/src/main/java/com/sun/prism/impl/GlyphCache.java:231-233 | the table is empty, so every later lookup misses |
| GlyphCaching.GlyphCache.ClearAll | modules/graphics/src/main/java/com/sun/prism/impl/GlyphCache.java:235-241 | flushes, clears the context's glyph caches, then the packer, in that order; the packer is empty; this cache's table is either as it was or empty |
| GlyphCaching.GlyphCache.UpdateBackingStore | modules/graphics/src/main/java/com/sun/prism/impl/GlyphCache.java:320-339 | the blank upload is logged, and can succeed only for a rectangle inside the atlas |
| GlyphCaching.GlyphCache.Render | modules/graphics/src/main/java/com/sun/prism/impl/GlyphCache.java:114-182 | what the loop sends to the vertex buffer is `Walk` over the entries the cache returned, with the pens of the run; every returned entry is well formed; the observable states before and after each glyph are chained from the state at the call to the final one, and each glyph's step between them is its `Turn`, so the entries are the cache's answers at each glyph's own offset and the glyphs after the break ask nothing |
| GlyphCaching.GlyphCache.RenderTurn | modules/graphics/src/main/java/com/sun/prism/impl/GlyphCache.java:135-181 | one loop turn extends the walk by one `Step` and the record of the cache's states and answers by one `Turn` |
| GlyphCaching.GlyphCache.RenderGlyph | modules/graphics/src/main/java/com/sun/prism/impl/GlyphCache.java:136-150 | one loop turn: the invisible placeholder is not looked up and changes nothing; any other glyph is `Fetched` at its pen's sub-pixel offset; the output, colour and break flag are one `Step` |
| GlyphCaching.GlyphCache.Emit | modules/graphics/src/main/java/com/sun/prism/impl/GlyphCache.java:151-180 | after the lookup, the output, colour and break flag are one `Step` of the walk |
| Rendering.FloatToInt | modules/graphics/src/main/java/com/sun/prism/impl/GlyphCache.java:147 | Java's `(int)` cast stays in int range, is within 1 of its argument inside that range, rounds toward zero on each side of 0, and saturates to `Integer.MAX_VALUE` or `Integer.MIN_VALUE` outside it |
| Rendering.PenOf | modules/graphics/src/main/java/com/sun/prism/impl/GlyphCache.java:144-149 | the pen is the run origin plus the glyph position; for sub-pixel strikes the pen x is the truncated int and pen x + offset is the exact position; otherwise the offset is 0 |
| Rendering.Pens | modules/graphics/src/main/java/com/sun/prism/impl/GlyphCache.java:144-149 | one pen per glyph, each the glyph's `PenOf` |
| Rendering.SubPixelBucket | modules/graphics/src/main/java/com/sun/prism/impl/GlyphCache.java:145-150 | a negative pen x is looked up in bucket 0, because the cast truncates toward zero; a non-negative one leaves a fraction in [0,1) that is looked up in the quarter below it |
| Rendering.Selected | modules/graphics/src/main/java/com/sun/prism/impl/GlyphCache.java:164-177 | a glyph whose char offset lies in [start, end) gets the range colour, any other the text colour |
| Rendering.QuadOps | modules/graphics/src/main/java/com/sun/prism/impl/GlyphCache.java:194-223 | an entry without a rectangle adds nothing (the early return); otherwise exactly one quad of the glyph's size inside the border |
| Rendering.Paint | modules/graphics/src/main/java/com/sun/prism/impl/GlyphCache.java:164-177 | with both colours given, the glyph's selected colour is set unless it is already in force; otherwise nothing changes |
| Rendering.Step | modules/graphics/src/main/java/com/sun/prism/impl/GlyphCache.java:136-180 | one glyph: the placeholder and a glyph without an entry add nothing; a glyph right of the clip sets the break flag; a glyph left of it adds nothing; any other is painted and gets its quad at the transformed pen |
| Rendering.Beyond | modules/graphics/src/main/java/com/sun/prism/impl/GlyphCache.java:154 | a glyph whose user-space x is right of the clip breaks off the run (no contract; `WalkStopsExactly` states the break) |
| Rendering.LeftOf | modules/graphics/src/main/java/com/sun/prism/impl/GlyphCache.java:155 | a glyph whose user-space end is left of the clip is skipped (no contract; `WalkDrawsExactly` states the skip) |
| Rendering.Walk | modules/graphics/src/main/java/com/sun/prism/impl/GlyphCache.java:135-181 | the loop over the first n glyphs: each `Step` in run order until the break flag is set |
| Rendering.StepAppends | modules/graphics/src/main/java/com/sun/prism/impl/GlyphCache.java:135-181 | one turn only appends to what was already sent |
| Rendering.StoppedBeforeMeans | modules/graphics/src/main/java/com/sun/prism/impl/GlyphCache.java:154 | the recursive "stopped before i" is the same as "some earlier looked-up glyph lies right of the clip" |
| Rendering.WalkStopped | modules/graphics/src/main/java/com/sun/prism/impl/GlyphCache.java:154 | the walk's break flag is `StoppedBefore` |
| Rendering.WalkStopsExactly | modules/graphics/src/main/java/com/sun/prism/impl/GlyphCache.java:151-154 | the loop breaks if and only if some glyph with an entry, and not the placeholder, starts right of the clip |
| Rendering.StepQuads | modules/graphics/src/main/java/com/sun/prism/impl/GlyphCache.java:141-179 | one turn adds the glyph's quad exactly when it is drawable: looked up, has an entry with a rectangle, and is inside the clip |
| Rendering.WalkDrawsExactly | modules/graphics/src/main/java/com/sun/prism/impl/GlyphCache.java:135-181 | the quads are exactly the drawable glyphs before the first break, in run order: skipped placeholders, null entries, glyphs left of the clip and whitespace add none |
| Rendering.StepKeepsColors | modules/graphics/src/main/java/com/sun/prism/impl/GlyphCache.java:164-179 | one turn keeps the colour invariant: the current colour is the last one set, and every operation follows the colour rules |
| Rendering.WalkKeepsColors | modules/graphics/src/main/java/com/sun/prism/impl/GlyphCache.java:164-177 | the whole walk keeps that colour invariant |
| Rendering.RespectedNoRedundant | modules/graphics/src/main/java/com/sun/prism/impl/GlyphCache.java:167-175 | output that follows the colour rules never sets the colour already in force |
| Rendering.RespectedSelected | modules/graphics/src/main/java/com/sun/prism/impl/GlyphCache.java:164-177 | with both colours given, such output draws every quad in its glyph's selected colour |
| Rendering.RespectedOnlyQuads | modules/graphics/src/main/java/com/sun/prism/impl/GlyphCache.java:164 | without both colours, such output holds only quads |
| Rendering.WalkColors | modules/graphics/src/main/java/com/sun/prism/impl/GlyphCache.java:164-177 | the current colour is the last one set; no colour is set while in force; with both colours each quad is in its selected colour; otherwise no colour is set at all |
| Rendering.QuadsMatchEntries | modules/graphics/src/main/java/com/sun/prism/impl/GlyphCache.java:178-179 | every quad belongs to a glyph whose entry has a rectangle; it sits at the transformed pen of that glyph and has the entry's drawn size |
| Rendering.WalkPrefix | modules/graphics/src/main/java/com/sun/prism/impl/GlyphCache.java:135-181 | the walk over n glyphs depends only on the first n lookups |
| Rendering.StopIsFinal | modules/graphics/src/main/java/com/sun/prism/impl/GlyphCache.java:154 | after the break, later glyphs change nothing |
| Rendering.StoppedBeforeStays | modules/graphics/src/main/java/com/sun/prism/impl/GlyphCache.java:154 | once the run has been broken off before a glyph, it is broken off before every later one |
| Rendering.WalkPadded | modules/graphics/src/main/java/com/sun/prism/impl/GlyphCache.java:135-154 | a walk that broke off, or reached the end of the run, is the whole walk over its entries followed by glyphs not looked up |

## Left out

- Float geometry of a quad: y rounding, x rounding or LCD thirds, texture coordinates, `dstw`/`dsth`. Quads carry only the transformed pen and the drawn size. Java `float` is modelled as `real`.
- The device transform `xform`: it is an uninterpreted function.
- Constructor: texture creation and sharing one packer per context through the `WeakHashMap`s are not modelled. The packer is passed in, already valid and 1024×1024. `isLCDCache` decides the quad geometry and also which shared packer map (`lcdPackerMap` or `greyPackerMap`, line 100) supplies the packer, and so which atlas the cache shares. That choice of map is not modelled.
- Packing.RectanglePacker.Add: the bin-packing algorithm is not modelled. The packer places at some free position or fails, nondeterministically. The one assumption on it is that an empty packer places every rectangle no larger than the atlas. The source of `RectanglePacker` is not part of this model.
- GlyphCaching.GlyphCache.UpdateBackingStore: whether `Texture.update` throws is nondeterministic. The one assumption on the texture is that it cannot succeed outside its surface. The zero-filled `emptyMask` buffer, its size and the bytes per pixel are not modelled.
- The mask upload (`MaskData.create`, `uploadToTexture`): pixel data is left out. It is recorded as a call at the position inside the border.
- GlyphCaching.RasterizeCalls: the model takes it that `uploadToTexture` (lines 341-344) does not throw. It sits outside the `try` of lines 330-339, so an exception there would propagate out of `render`, leaving the segment allocated and the slot empty.
- GlyphCaching.GlyphCache.ClearAll: `context.clearGlyphCaches()` clears caches that are not part of this model. For this cache, its effect is a nondeterministic choice between emptying the table and leaving it as it was.
- GlyphCaching.GlyphCache.GetCachedGlyph: glyph codes must be non-negative. For a negative code the key loses the phase (`NegativeCodeCollides`). Unless the code is a multiple of 32, Java's `%` also gives a negative slot; the array access then throws at line 263 when the segment exists, or at line 347 when an entry is stored. A miss that returns null first (no glyph at line 274, a failed blank upload at line 338) touches no slot. A negative multiple of 32 gets slot 0 and does not throw. None of this is modelled. The `y` offset is always 0 at the call site, so it is not a parameter.
- The strike is a function from glyph code to glyph. `getGlyph(gl, gi)` depends only on the code. Rasterizing with `getPixelData(x, y)` (line 286) is not a call in the log. The quantized offset appears only on the `UploadMask` call, so a miss whose blank upload fails leaves no record of the offset it rasterized at.
- `INVISIBLE_GLYPH_ID` is 0xFFFF, the value of `CharToGlyphMapper.INVISIBLE_GLYPH_ID`. `CharToGlyphMapper` is not part of this model.
- Colours are compared by identity, as `!=` on `Color` objects does. `Color` is an opaque identity.
- The pulse logger and `printStackTrace` are left out. `getBackingStore` is left out because the texture is implicit.
- In the clip-skip branch, `pt.x += advance` and `pt.y += advance` are not modelled. The next turn overwrites `pt` with `setLocation` before using it, so they have no effect.
- There is no fatal path for a glyph too large even for an empty atlas. Only such a glyph can make the second `add` fail. Its result is ignored and the blank upload is attempted at the origin, where the rectangle does not fit the texture, so the upload fails and the glyph gets null; the model follows the code.
