/**
 * The glyph cache of one font strike on one rendering context: a sparse
 * table of 32-slot segments keyed by segment index and sub-pixel phase,
 * filled on a miss by asking the strike for the glyph, reserving padded
 * space for it in the shared atlas (clearing the atlas once when it is
 * full) and uploading its mask.
 */
module GlyphCaching {
  import opened Wrappers
  import opened KeyEncoding
  import opened Packing
  import opened GlyphEntries
  import opened Rendering

  /** The size of the atlas texture, in pixels. */
  const WIDTH: int := 1024
  const HEIGHT: int := 1024

  /** The calls a cache makes to its collaborators, in the order it makes them. */
  datatype Call =
    | GetGlyph(glyphCode: Int32)
    | PackerAdd(width: int, height: int, ok: bool)
    | FlushVertexBuffer
    | ClearGlyphCaches
    | PackerClear
    | UploadBlank(rect: Rect, ok: bool)
    | UploadMask(x: int, y: int, subPixelX: real)

  /** The answers the collaborators gave during a miss on a visible glyph. */
  datatype Answers = Answers(rect: Rect, firstAdd: bool, secondAdd: bool, uploaded: bool)

  /** A boxed `int`, the key type of `glyphDataMap`. */
  datatype Integer = Integer(intValue: Int32)

  /** The abstract value of `glyphDataMap`: each key's segment as a sequence. */
  type Table = map<Integer, seq<Option<GlyphData>>>

  function EmptySegment(): (s: seq<Option<GlyphData>>)
    ensures |s| == 32 && forall i :: 0 <= i < 32 ==> s[i].None?
  {
    seq(32, _ => None)
  }

  /** The entry a table holds at a key and slot, if any. */
  function Lookup(t: Table, key: Integer, slot: nat): (entry: Option<GlyphData>)
    ensures entry.Some? ==> key in t && slot < |t[key]| && t[key][slot] == entry
  {
    if key in t && slot < |t[key]| then t[key][slot] else None
  }

  /** The table after a miss has made sure the key has a segment. */
  function WithSegment(t: Table, key: Integer): (r: Table)
    ensures key in r && r.Keys == t.Keys + {key}
    ensures |r[key]| == if key in t then |t[key]| else 32
  {
    if key in t then t else t[key := EmptySegment()]
  }

  /** The table after an entry is written into a slot of an existing segment. */
  function Store(t: Table, key: Integer, slot: nat, d: GlyphData): Table
    requires key in t && slot < |t[key]|
  {
    t[key := t[key][slot := Some(d)]]
  }

  /** What `clearAll` asks of the context and the packer. */
  function ClearAllCalls(): seq<Call>
  {
    [FlushVertexBuffer, ClearGlyphCaches, PackerClear]
  }

  /** The calls that reserve atlas space: one add, or a failed add, `clearAll` and one more add. */
  function ReserveCalls(w: int, h: int, firstAdd: bool, secondAdd: bool): seq<Call>
  {
    if firstAdd then [PackerAdd(w, h, true)]
    else [PackerAdd(w, h, false)] + ClearAllCalls() + [PackerAdd(w, h, secondAdd)]
  }

  /** The calls a miss on a visible glyph makes after asking the strike, rasterizing at `phase`. */
  function RasterizeCalls(g: Glyph, phase: Phase, a: Answers): seq<Call>
  {
    ReserveCalls(PaddedRect(g).width, PaddedRect(g).height, a.firstAdd, a.secondAdd)
    + [UploadBlank(a.rect, a.uploaded)]
    + (if a.uploaded then [UploadMask(a.rect.x + BORDER, a.rect.y + BORDER, Offset(phase))] else [])
  }

  /** A step handed to the solver: regrouping a concatenation of call logs. */
  lemma AppendAssoc<T>(a: seq<T>, b: seq<T>, c: seq<T>)
    ensures a + (b + c) == (a + b) + c
  {
  }

  /** What a caller can observe of a cache: its table, the calls made so far, and the packer's placements. */
  datatype Snapshot = Snapshot(table: Table, calls: seq<Call>, placed: seq<Rect>)

  /**
   * What a miss does once the segment for `key` is in the table (lines
   * 271-350): it asks the strike; no glyph is cached as nothing; a glyph
   * with no area is stored with no rectangle and no packer call; a visible
   * glyph gets a padded rectangle that was free when the first add
   * succeeded, or else comes after `clearAll` and a second add, and its
   * entry is stored only if the blank upload succeeded. After a
   * `clearAll` the table is either as it would be without it or empty.
   */
  ghost predicate MissOutcome(glyph: Option<Glyph>, glyphCode: Int32, phase: Phase, key: Integer, slot: nat,
                              before: Snapshot, after: Snapshot, data: Option<GlyphData>, a: Answers)
    requires key in before.table && slot < |before.table[key]|
  {
    var asked := before.calls + [GetGlyph(glyphCode)];
    match glyph
    case None =>
      data.None? && after == Snapshot(before.table, asked, before.placed)
    case Some(g) =>
      if !Visible(g) then
        data == Some(WhitespaceData(g)) && after == Snapshot(Store(before.table, key, slot, data.value), asked, before.placed)
      else
        var padded := PaddedRect(g);
        var stored := if a.uploaded then Store(before.table, key, slot, VisibleData(g, a.rect)) else before.table;
        && a.rect.width == padded.width && a.rect.height == padded.height
        && after.calls == asked + RasterizeCalls(g, phase, a)
        && data == (if a.uploaded then Some(VisibleData(g, a.rect)) else None)
        && (a.firstAdd ==> FreeAmong(before.placed, a.rect, WIDTH, HEIGHT) && after.placed == before.placed + [a.rect])
        && (!a.firstAdd && a.secondAdd ==> after.placed == [a.rect])
        && (!a.firstAdd && !a.secondAdd ==> after.placed == [] && a.rect == padded)
        && (!a.secondAdd ==> !FitsIn(padded, WIDTH, HEIGHT))
        && (after.table == stored || (!a.firstAdd && after.table == map[]))
  }

  /**
   * `getCachedGlyph` for a glyph code at a sub-pixel offset, from the
   * observable state `before` to `after` (lines 243-351): a hit returns the
   * stored entry and changes nothing; a miss is `MissOutcome` once the
   * key's segment is in the table.
   */
  ghost predicate Fetched(strike: Int32 -> Option<Glyph>, glyphCode: Int32, x: real,
                          before: Snapshot, after: Snapshot, data: Option<GlyphData>, a: Answers)
    requires NonNegative(glyphCode) && Segmented(before.table)
  {
    if Hit(before.table, glyphCode, x) then
      data == Lookup(before.table, KeyOf(glyphCode, x), Slot(glyphCode)) && after == before
    else
      MissOutcome(strike(glyphCode), glyphCode, Quantize(x), KeyOf(glyphCode, x), Slot(glyphCode),
                  before.(table := WithSegment(before.table, KeyOf(glyphCode, x))), after, data, a)
  }

  /**
   * One turn of the loop of `render` as the cache sees it (lines 135-150):
   * after the break, and for the invisible placeholder, the cache is not
   * asked and nothing changes; any other glyph is fetched at the sub-pixel
   * offset of its pen.
   */
  ghost predicate Turn(strike: Int32 -> Option<Glyph>, r: RenderArgs, gi: nat, stopped: bool,
                       before: Snapshot, after: Snapshot, data: Option<GlyphData>, a: Answers)
    requires ListShape(r.gl) && gi < |r.gl.codes| && NonNegative(r.gl.codes[gi])
  {
    if stopped || r.gl.codes[gi] == INVISIBLE_GLYPH_ID then data.None? && after == before
    else Segmented(before.table) && Fetched(strike, r.gl.codes[gi], PenOf(r, gi).subPixelX, before, after, data, a)
  }

  /**
   * Every cached entry is whitespace, or a bordered rectangle inside the
   * atlas with a non-empty glyph inside the border.
   */
  predicate WellFormed(d: GlyphData)
  {
    || (d.rect.None? && d.originX == 0 && d.originY == 0 && d.blankBoundary == 0)
    || (&& d.rect.Some? && d.blankBoundary == BORDER && Inside(d.rect.value, WIDTH, HEIGHT)
        && DrawnWidth(d) > 0 && DrawnHeight(d) > 0)
  }

  class GlyphCache {
    /** The strike's rasterizer: the glyph for a code, or None. */
    const strike: Int32 -> Option<Glyph>
    /** `strike.isSubPixelGlyph()`. */
    const subPixel: bool
    /** The packer shared by every cache of this context and anti-aliasing mode. */
    const packer: RectanglePacker

    var glyphDataMap: map<Integer, array<Option<GlyphData>>>
    ghost var Repr: set<array<Option<GlyphData>>>
    /** The calls made so far to the strike, the packer, the context and the texture. */
    ghost var calls: seq<Call>

    /** Every key has its own 32-slot segment, and every entry is well formed. */
    ghost predicate SegmentsValid()
      reads this`glyphDataMap, this`Repr, Repr
    {
      && (forall k :: k in glyphDataMap ==> glyphDataMap[k] in Repr && glyphDataMap[k].Length == 32)
      && (forall k1, k2 :: k1 in glyphDataMap && k2 in glyphDataMap && k1 != k2 ==>
            glyphDataMap[k1] != glyphDataMap[k2])
      && (forall k, i :: k in glyphDataMap && 0 <= i < 32 && glyphDataMap[k][i].Some? ==>
            WellFormed(glyphDataMap[k][i].value))
    }

    ghost predicate Valid()
      reads this, Repr, packer
    {
      && SegmentsValid()
      && packer.Valid() && packer.width == WIDTH && packer.height == HEIGHT
    }

    /** The segments' current contents. */
    ghost function Table(): (t: Table)
      reads this`glyphDataMap, this`Repr, Repr
      requires SegmentsValid()
      ensures t.Keys == glyphDataMap.Keys
      ensures forall k :: k in glyphDataMap ==> t[k] == glyphDataMap[k][..] && |t[k]| == 32
    {
      map k | k in glyphDataMap :: glyphDataMap[k][..]
    }

    /** The observable state. */
    ghost function Snap(): (s: Snapshot)
      reads this`glyphDataMap, this`Repr, Repr, this`calls, packer
      requires SegmentsValid()
      ensures s.table == Table() && s.calls == calls && s.placed == packer.placed
    {
      Snapshot(Table(), calls, packer.placed)
    }

    /** The packer and the texture are created elsewhere and handed in; the cache starts empty. */
    constructor (strike: Int32 -> Option<Glyph>, subPixel: bool, packer: RectanglePacker)
      requires packer.Valid() && packer.width == WIDTH && packer.height == HEIGHT
      ensures Valid() && fresh(Repr)
      ensures this.strike == strike && this.subPixel == subPixel && this.packer == packer
      ensures Table() == map[] && calls == []
    {
      this.strike := strike;
      this.subPixel := subPixel;
      this.packer := packer;
      glyphDataMap := map[];
      Repr := {};
      calls := [];
    }

    /**
     * `render` (lines 114-182): walk the run, ask the cache for the entry of
     * every glyph but the invisible placeholder, and send colours and quads
     * to the vertex buffer as `Walk` describes, given the entries the cache
     * returned; the loop stops at the first glyph past the clip. `looked`
     * holds those entries, None for glyphs the cache was not asked about.
     */
    method Render(gl: GlyphList, x: real, y: real, start: int, end: int,
                  rangeColor: Option<Color>, textColor: Option<Color>,
                  xform: Point -> Point, clip: Option<Clip>)
      returns (ghost ops: seq<VertexOp>, ghost looked: seq<Option<GlyphData>>,
               ghost snaps: seq<Snapshot>, ghost answers: seq<Answers>)
      requires Valid() && ListShape(gl)
      requires forall i :: 0 <= i < |gl.codes| ==> NonNegative(gl.codes[i])
      modifies this, Repr, packer
      ensures Valid() && fresh(Repr - old(Repr))
      ensures |looked| == |gl.codes|
      ensures forall i :: 0 <= i < |looked| && looked[i].Some? ==> WellFormed(looked[i].value)
      ensures var args := RenderArgs(gl, x, y, start, end, rangeColor, textColor, xform, clip, subPixel);
        ops == Walk(args, Pens(args), looked, |gl.codes|).ops
      // The cache's state before and after each glyph, and what each glyph's turn asked of it.
      ensures |snaps| == |gl.codes| + 1 && |answers| == |gl.codes|
      ensures snaps[0] == old(Snap()) && snaps[|gl.codes|] == Snap()
      ensures var args := RenderArgs(gl, x, y, start, end, rangeColor, textColor, xform, clip, subPixel);
        forall i :: 0 <= i < |gl.codes| ==>
          Turn(strike, args, i, StoppedBefore(args, looked, i), snaps[i], snaps[i + 1], looked[i], answers[i])
    {
      var args := RenderArgs(gl, x, y, start, end, rangeColor, textColor, xform, clip, subPixel);
      var len := |gl.codes|;
      ghost var pens := Pens(args);
      var currentColor: Option<Color> := None;
      ops, looked, snaps, answers := [], [], [Snap()], [];
      var gi := 0;
      var stop := false;
      while gi < len && !stop
        invariant 0 <= gi <= len && |looked| == gi
        invariant Valid() && fresh(Repr - old(Repr))
        invariant forall i :: 0 <= i < gi && looked[i].Some? ==> WellFormed(looked[i].value)
        invariant Walk(args, pens, looked, gi) == WalkState(ops, currentColor, stop)
        invariant |snaps| == gi + 1 && |answers| == gi
        invariant snaps[0] == old(Snap()) && snaps[gi] == Snap()
        invariant forall i :: 0 <= i < gi ==>
          Turn(strike, args, i, StoppedBefore(args, looked, i), snaps[i], snaps[i + 1], looked[i], answers[i])
      {
        currentColor, stop, ops, looked, snaps, answers := RenderTurn(args, gi, currentColor, ops, looked, snaps, answers);
        gi := gi + 1;
      }
      WalkPadded(args, pens, looked, gi, len);
      TurnsPadded(strike, args, looked, snaps, answers, gi, len);
      looked, snaps, answers := Padded(looked, len - gi, None), Padded(snaps, len - gi, snaps[gi]), Padded(answers, len - gi, NoAnswers);
    }

    /** The loop body of `render` with the record of the turns so far extended by this one. */
    method RenderTurn(args: RenderArgs, gi: nat, currentColor: Option<Color>, ghost ops: seq<VertexOp>,
                      ghost looked: seq<Option<GlyphData>>, ghost snaps: seq<Snapshot>, ghost answers: seq<Answers>)
      returns (color: Option<Color>, stop: bool, ghost ops': seq<VertexOp>,
               ghost looked': seq<Option<GlyphData>>, ghost snaps': seq<Snapshot>, ghost answers': seq<Answers>)
      requires Valid() && ListShape(args.gl) && gi < |args.gl.codes| && args.subPixel == subPixel
      requires forall i :: 0 <= i < |args.gl.codes| ==> NonNegative(args.gl.codes[i])
      requires |looked| == gi && |snaps| == gi + 1 && |answers| == gi && snaps[gi] == Snap()
      requires forall i :: 0 <= i < gi && looked[i].Some? ==> WellFormed(looked[i].value)
      requires Walk(args, Pens(args), looked, gi) == WalkState(ops, currentColor, false)
      requires forall i :: 0 <= i < gi ==>
        Turn(strike, args, i, StoppedBefore(args, looked, i), snaps[i], snaps[i + 1], looked[i], answers[i])
      modifies this, Repr, packer
      ensures Valid() && fresh(Repr - old(Repr))
      ensures |looked'| == gi + 1 && |snaps'| == gi + 2 && |answers'| == gi + 1
      ensures looked'[..gi] == looked && snaps'[..gi + 1] == snaps && answers'[..gi] == answers && snaps'[gi + 1] == Snap()
      ensures forall i :: 0 <= i < gi + 1 && looked'[i].Some? ==> WellFormed(looked'[i].value)
      ensures Walk(args, Pens(args), looked', gi + 1) == WalkState(ops', color, stop)
      ensures forall i :: 0 <= i < gi + 1 ==>
        Turn(strike, args, i, StoppedBefore(args, looked', i), snaps'[i], snaps'[i + 1], looked'[i], answers'[i])
    {
      ghost var pens := Pens(args);
      WalkStopped(args, pens, looked, gi);
      var data;
      ghost var emitted, a;
      data, color, stop, emitted, a := RenderGlyph(args, gi, currentColor);
      TurnOfFetch(strike, args, gi, old(Snap()), Snap(), data, a);
      TurnsExtend(strike, args, looked, data, snaps, Snap(), answers, a, gi);
      StepAppends(args, pens[gi], data, gi, ops, currentColor);
      WalkPrefix(args, pens, looked, looked + [data], gi);
      ops', looked', snaps', answers' := ops + emitted, looked + [data], snaps + [Snap()], answers + [a];
      assert looked'[..gi] == looked && snaps'[..gi + 1] == snaps && answers'[..gi] == answers;
    }

    /**
     * One turn of the loop of `render` (lines 136-180) with the colour in
     * force: the entry the cache returned for the glyph (None for the
     * invisible placeholder, which is not looked up), the colour in force
     * afterwards, whether the loop breaks, and what was sent to the vertex
     * buffer, which is what `Step` describes.
     */
    method RenderGlyph(args: RenderArgs, gi: nat, currentColor: Option<Color>)
      returns (data: Option<GlyphData>, color: Option<Color>, stop: bool, ghost emitted: seq<VertexOp>, ghost a: Answers)
      requires Valid() && ListShape(args.gl) && gi < |args.gl.codes| && args.subPixel == subPixel
      requires NonNegative(args.gl.codes[gi])
      modifies this, Repr, packer
      ensures Valid() && fresh(Repr - old(Repr))
      ensures data.Some? ==> WellFormed(data.value)
      // The placeholder is not looked up; any other glyph is fetched at its pen's sub-pixel offset.
      ensures args.gl.codes[gi] == INVISIBLE_GLYPH_ID ==> data.None? && Snap() == old(Snap())
      ensures args.gl.codes[gi] != INVISIBLE_GLYPH_ID ==>
        && Segmented(old(Table()))
        && Fetched(strike, args.gl.codes[gi], PenOf(args, gi).subPixelX, old(Snap()), Snap(), data, a)
      ensures Step(args, PenOf(args, gi), data, gi, WalkState([], currentColor, false)) == WalkState(emitted, color, stop)
    {
      var gl := args.gl;
      color, stop, emitted := currentColor, false, [];
      var gc := gl.codes[gi];
      a := Answers(Rect(0, 0, 0, 0), true, true, true);
      if gc == INVISIBLE_GLYPH_ID {
        return None, color, stop, emitted, a;
      }
      var ptX, ptY := args.x + gl.posX[gi], args.y + gl.posY[gi];
      var subPixelX := 0.0;
      if subPixel {
        subPixelX := ptX;
        ptX := FloatToInt(ptX) as real;
        subPixelX := subPixelX - ptX;
      }
      var pen := Pen(Point(ptX, ptY), subPixelX);
      assert pen == PenOf(args, gi);
      data, a := GetCachedGlyph(gc, subPixelX);
      color, stop, emitted := Emit(args, gi, pen, data, currentColor);
    }

    /**
     * Lines 151-179, after the lookup: nothing for a glyph without an
     * entry; otherwise break at a glyph past the clip, skip a glyph left of
     * it, switch the colour if needed and add the quad (`addDataToQuad`,
     * which adds nothing for an entry without a rectangle).
     */
    method Emit(args: RenderArgs, gi: nat, pen: Pen, data: Option<GlyphData>, currentColor: Option<Color>)
      returns (color: Option<Color>, stop: bool, emitted: seq<VertexOp>)
      requires ListShape(args.gl) && gi < |args.gl.codes| && args.gl.codes[gi] != INVISIBLE_GLYPH_ID
      ensures Step(args, pen, data, gi, WalkState([], currentColor, false)) == WalkState(emitted, color, stop)
    {
      var gl := args.gl;
      color, stop, emitted := currentColor, false, [];
      if data.None? {
        return;
      }
      if args.clip.Some? {
        if args.x + gl.posX[gi] > args.clip.value.maxX {
          stop := true;
          return;
        }
        if args.x + gl.posX[gi + 1] < args.clip.value.minX {
          return;
        }
      }
      if args.rangeColor.Some? && args.textColor.Some? {
        var offset := gl.charOffsets[gi];
        if args.start <= offset && offset < args.end {
          if Some(args.rangeColor.value) != color {
            emitted := emitted + [SetColor(args.rangeColor.value)];
            color := Some(args.rangeColor.value);
          }
        } else {
          if Some(args.textColor.value) != color {
            emitted := emitted + [SetColor(args.textColor.value)];
            color := Some(args.textColor.value);
          }
        }
      }
      var at := args.xform(pen.at);
      emitted := emitted + QuadOps(gi, data.value, at);
    }

    /** `clear`: every entry is dropped, so every later lookup is a miss. */
    method Clear()
      requires Valid()
      modifies this`glyphDataMap
      ensures Valid() && Table() == map[]
      ensures forall k, i :: Lookup(Table(), k, i).None?
    {
      glyphDataMap := map[];
    }

    /**
     * `clearAll`: flush the pending vertices, then have the context clear its
     * glyph caches, then clear the packer. Which caches the context clears is
     * not part of this model, so this cache's table is either emptied or left
     * as it was.
     */
    method ClearAll()
      requires Valid()
      modifies this`glyphDataMap, this`calls, packer
      ensures Valid()
      ensures calls == old(calls) + ClearAllCalls()
      ensures packer.placed == []
      ensures glyphDataMap == old(glyphDataMap) || glyphDataMap == map[]
      ensures Table() == old(Table()) || Table() == map[]
    {
      calls := calls + [FlushVertexBuffer];
      calls := calls + [ClearGlyphCaches];
      var reachesThisCache: bool :| true;
      if reachesThisCache {
        glyphDataMap := map[];
      }
      label BeforePackerClear:
      packer.Clear();
      assert forall k, i :: k in glyphDataMap && 0 <= i < 32 ==>
        glyphDataMap[k][i] == old@BeforePackerClear(glyphDataMap[k][i]);
      calls := calls + [PackerClear];
    }

    /**
     * The blank upload into the reserved rectangle. The texture may throw for
     * any reason; it cannot succeed for a region outside its surface.
     */
    method UpdateBackingStore(rect: Rect) returns (ok: bool)
      modifies this`calls
      ensures calls == old(calls) + [UploadBlank(rect, ok)]
      ensures ok ==> Inside(rect, WIDTH, HEIGHT)
    {
      var succeeds: bool :| true;
      ok := succeeds && Inside(rect, WIDTH, HEIGHT);
      calls := calls + [UploadBlank(rect, ok)];
    }

    /**
     * `getCachedGlyph`: the entry for a glyph code at the sub-pixel offset
     * `x`. A hit returns the stored entry and touches nothing. A miss makes
     * sure the segment exists, then asks the strike: no glyph gives None and
     * stores nothing; a glyph with no area is stored with no rectangle; a
     * visible glyph gets a padded rectangle from the packer (after one failed
     * add, `clearAll` and one more add, whose result is not checked), a
     * blank upload into it, and, if that upload did not throw, its mask and
     * its entry. After a `clearAll` the entry may land in a segment the
     * context has already dropped from the table.
     */
    method GetCachedGlyph(glyphCode: Int32, x: real) returns (data: Option<GlyphData>, ghost a: Answers)
      requires Valid() && NonNegative(glyphCode)
      modifies this, Repr, packer
      ensures Valid() && fresh(Repr - old(Repr))
      ensures data.Some? ==> WellFormed(data.value)
      // A hit (lines 261-265).
      ensures Hit(old(Table()), glyphCode, x) ==>
        data == Lookup(old(Table()), KeyOf(glyphCode, x), Slot(glyphCode)) && Snap() == old(Snap())
      // A miss (lines 266-350).
      ensures !Hit(old(Table()), glyphCode, x) ==>
        MissOutcome(strike(glyphCode), glyphCode, Quantize(x), KeyOf(glyphCode, x), Slot(glyphCode),
                    old(Snap()).(table := WithSegment(old(Table()), KeyOf(glyphCode, x))), Snap(), data, a)
    {
      var phase := Quantize(x);
      var key := Integer(SegmentKey(glyphCode, phase));
      var subIndex := Slot(glyphCode);
      a := Answers(PaddedRect(Glyph(0, 0, 0, 0, 0.0, 0.0)), true, true, true);
      var segment, hit := FetchSegment(key, subIndex);
      if hit.Some? {
        data := hit;
        return;
      }
      data, a := Miss(glyphCode, phase, key, subIndex, segment);
    }

    /**
     * Lines 271-350, a miss once the segment for `key` is in the table: ask
     * the strike, and cache what it returns unless it returns no glyph or
     * the blank upload throws.
     */
    method Miss(glyphCode: Int32, phase: Phase, key: Integer, slot: nat, segment: array<Option<GlyphData>>)
      returns (data: Option<GlyphData>, ghost a: Answers)
      requires Valid() && slot < 32
      requires key in glyphDataMap && glyphDataMap[key] == segment
      modifies this`glyphDataMap, this`calls, packer, segment
      ensures Valid() && Repr == old(Repr)
      ensures data.Some? ==> WellFormed(data.value)
      ensures MissOutcome(strike(glyphCode), glyphCode, phase, key, slot, old(Snap()), Snap(), data, a)
    {
      a := Answers(PaddedRect(Glyph(0, 0, 0, 0, 0.0, 0.0)), true, true, true);
      ghost var t1 := Table();
      calls := calls + [GetGlyph(glyphCode)];
      ghost var t2 := Table();
      assert t2 == t1;
      var glyph := strike(glyphCode);
      data := None;
      if glyph.Some? {
        var g := glyph.value;
        if !Visible(g) {
          data := Some(WhitespaceData(g));
          WriteSlot(segment, key, slot, data.value);
          assert Table() == Store(t2, key, slot, data.value);
        } else {
          data, a := AddVisible(segment, key, slot, g, phase);
        }
      }
    }

    /**
     * The segment for `key` (lines 261-269): an existing segment together
     * with the entry at `slot` if there is one, or else a new empty segment,
     * inserted under the key.
     */
    method FetchSegment(key: Integer, slot: nat) returns (segment: array<Option<GlyphData>>, hit: Option<GlyphData>)
      requires Valid() && slot < 32
      modifies this`glyphDataMap, this`Repr
      ensures Valid() && fresh(Repr - old(Repr))
      ensures hit == Lookup(old(Table()), key, slot)
      ensures hit.Some? ==> glyphDataMap == old(glyphDataMap) && Repr == old(Repr)
      ensures hit.None? ==> key in glyphDataMap && glyphDataMap[key] == segment && Table() == WithSegment(old(Table()), key)
    {
      if key in glyphDataMap {
        segment := glyphDataMap[key];
        hit := segment[slot];
      } else {
        segment := NewSegment(key);
        hit := None;
      }
    }

    /** Lines 267-269: a fresh segment of 32 empty slots is put under the key. */
    method NewSegment(key: Integer) returns (segment: array<Option<GlyphData>>)
      requires Valid() && key !in glyphDataMap
      modifies this`glyphDataMap, this`Repr
      ensures Valid() && fresh(segment) && Repr == old(Repr) + {segment}
      ensures glyphDataMap == old(glyphDataMap)[key := segment]
      ensures Table() == old(Table())[key := EmptySegment()]
    {
      segment := new Option<GlyphData>[32](_ => None);
      assert segment[..] == EmptySegment();
      glyphDataMap := glyphDataMap[key := segment];
      Repr := Repr + {segment};
    }

    /**
     * Lines 286-347 for a visible glyph: reserve the padded rectangle,
     * retrying once after `clearAll`, upload the blank border and the mask,
     * and write the entry into the segment fetched for it; None, and nothing
     * written, when the blank upload throws. If `clearAll` reached this
     * cache the segment is no longer in the table and the table stays empty.
     */
    method AddVisible(segment: array<Option<GlyphData>>, key: Integer, slot: nat, g: Glyph, phase: Phase)
      returns (data: Option<GlyphData>, ghost a: Answers)
      requires Valid() && Visible(g) && slot < 32
      requires key in glyphDataMap && glyphDataMap[key] == segment
      modifies this`glyphDataMap, this`calls, packer, segment
      ensures Valid() && Repr == old(Repr)
      ensures data.Some? ==> WellFormed(data.value)
      ensures a.rect.width == PaddedRect(g).width && a.rect.height == PaddedRect(g).height
      ensures calls == old(calls) + RasterizeCalls(g, phase, a)
      ensures data == (if a.uploaded then Some(VisibleData(g, a.rect)) else None)
      ensures a.firstAdd ==> old(packer.Free(a.rect)) && packer.placed == old(packer.placed) + [a.rect]
      ensures !a.firstAdd && a.secondAdd ==> packer.placed == [a.rect]
      ensures !a.firstAdd && !a.secondAdd ==> packer.placed == [] && a.rect == PaddedRect(g)
      ensures !a.secondAdd ==> !FitsIn(PaddedRect(g), WIDTH, HEIGHT)
      ensures var stored := if a.uploaded then Store(old(Table()), key, slot, VisibleData(g, a.rect)) else old(Table());
        Table() == stored || (!a.firstAdd && Table() == map[])
    {
      data, a := Rasterize(g, phase);
      if data.Some? {
        WriteSlot(segment, key, slot, data.value);
      }
    }

    /**
     * Lines 286-344 for a visible glyph: reserve the padded rectangle,
     * retrying once after `clearAll`, upload the blank border and the mask,
     * and build the entry; None when the blank upload throws. Segments are
     * not written, but `clearAll` may have emptied the table.
     */
    method Rasterize(g: Glyph, phase: Phase) returns (data: Option<GlyphData>, ghost a: Answers)
      requires Valid() && Visible(g)
      modifies this`glyphDataMap, this`calls, packer
      ensures Valid()
      ensures glyphDataMap == old(glyphDataMap) || (!a.firstAdd && glyphDataMap == map[])
      ensures unchanged(Repr) && Repr == old(Repr)
      ensures glyphDataMap == old(glyphDataMap) ==> Table() == old(Table())
      ensures a.rect.width == PaddedRect(g).width && a.rect.height == PaddedRect(g).height
      ensures calls == old(calls) + RasterizeCalls(g, phase, a)
      ensures data == (if a.uploaded then Some(VisibleData(g, a.rect)) else None)
      ensures data.Some? ==> WellFormed(data.value)
      ensures a.firstAdd ==> old(packer.Free(a.rect)) && packer.placed == old(packer.placed) + [a.rect]
      ensures !a.firstAdd && a.secondAdd ==> packer.placed == [a.rect]
      ensures !a.firstAdd && !a.secondAdd ==> packer.placed == [] && a.rect == PaddedRect(g)
      ensures !a.secondAdd ==> !FitsIn(PaddedRect(g), WIDTH, HEIGHT)
    {
      ghost var calls0 := calls;
      var rect, firstAdd, secondAdd := Reserve(PaddedRect(g));
      ghost var reserved := calls;
      var uploaded := UpdateBackingStore(rect);
      a := Answers(rect, firstAdd, secondAdd, uploaded);
      ghost var tail := [UploadBlank(rect, uploaded)];
      data := None;
      if uploaded {
        calls := calls + [UploadMask(rect.x + BORDER, rect.y + BORDER, Offset(phase))];
        tail := tail + [UploadMask(rect.x + BORDER, rect.y + BORDER, Offset(phase))];
        data := Some(VisibleData(g, rect));
      }
      assert calls == reserved + tail;
      ghost var reserve := ReserveCalls(PaddedRect(g).width, PaddedRect(g).height, firstAdd, secondAdd);
      assert RasterizeCalls(g, phase, a) == reserve + tail;
      AppendAssoc(calls0, reserve, tail);
      if glyphDataMap == old(glyphDataMap) {
        TableUnchanged();
      }
    }

    /**
     * Lines 304-309: ask the packer for room; if it is full, `clearAll` and
     * ask once more, without checking the answer. On a second failure the
     * rectangle stays where it was created, at the origin.
     */
    method Reserve(padded: Rect) returns (rect: Rect, firstAdd: bool, secondAdd: bool)
      requires Valid()
      modifies this`glyphDataMap, this`calls, packer
      ensures Valid() && unchanged(Repr) && Repr == old(Repr)
      ensures glyphDataMap == old(glyphDataMap) || (!firstAdd && glyphDataMap == map[])
      ensures rect.width == padded.width && rect.height == padded.height
      ensures calls == old(calls) + ReserveCalls(padded.width, padded.height, firstAdd, secondAdd)
      ensures firstAdd ==> secondAdd && old(packer.Free(rect)) && packer.placed == old(packer.placed) + [rect]
      ensures !firstAdd && secondAdd ==> packer.placed == [rect]
      ensures !firstAdd && !secondAdd ==> packer.placed == [] && rect == padded
      ensures !secondAdd ==> !FitsIn(padded, WIDTH, HEIGHT)
    {
      secondAdd := true;
      firstAdd, rect := packer.Add(padded);
      calls := calls + [PackerAdd(rect.width, rect.height, firstAdd)];
      if !firstAdd {
        ClearAll();
        secondAdd, rect := packer.Add(rect);
        calls := calls + [PackerAdd(rect.width, rect.height, secondAdd)];
      }
    }

    /** The table is a function of the segment map and the segments' contents. */
    twostate lemma TableUnchanged()
      requires old(SegmentsValid()) && SegmentsValid()
      requires glyphDataMap == old(glyphDataMap) && Repr == old(Repr) && unchanged(Repr)
      ensures Table() == old(Table())
    {
      assert forall k :: k in glyphDataMap ==> glyphDataMap[k][..] == old(glyphDataMap[k][..]);
    }

    /**
     * Line 347: the entry is written into the segment fetched before the
     * strike was asked. If the segment is still in the table the entry
     * becomes visible there; if the context dropped it, nothing changes.
     */
    method WriteSlot(segment: array<Option<GlyphData>>, key: Integer, slot: nat, d: GlyphData)
      requires Valid() && segment in Repr && segment.Length == 32 && slot < 32 && WellFormed(d)
      requires key in glyphDataMap ==> glyphDataMap[key] == segment
      requires forall k :: k in glyphDataMap && k != key ==> glyphDataMap[k] != segment
      modifies segment
      ensures Valid()
      ensures key in glyphDataMap ==> Table() == Store(old(Table()), key, slot, d)
      ensures key !in glyphDataMap ==> Table() == old(Table())
    {
      segment[slot] := Some(d);
    }
  }

  /** The table key for a glyph code at a requested sub-pixel offset. */
  function KeyOf(glyphCode: Int32, x: real): Integer
  {
    Integer(SegmentKey(glyphCode, Quantize(x)))
  }

  /** Whether the table already holds an entry for the glyph code at that offset. */
  predicate Hit(t: Table, glyphCode: Int32, x: real)
    requires NonNegative(glyphCode)
  {
    Lookup(t, KeyOf(glyphCode, x), Slot(glyphCode)).Some?
  }

  /** Every segment of the table has 32 slots. */
  predicate Segmented(t: Table)
  {
    forall k :: k in t ==> |t[k]| == 32
  }

  /** Inserting an empty segment on a miss changes no lookup and keeps every segment at 32 slots. */
  lemma WithSegmentKeepsLookups(t: Table, key: Integer)
    requires Segmented(t)
    ensures Segmented(WithSegment(t, key)) && |WithSegment(t, key)[key]| == 32
    ensures forall k, i :: Lookup(WithSegment(t, key), k, i) == Lookup(t, k, i)
  {
  }

  /**
   * Caching the entry of one glyph code at one offset makes exactly that
   * code, at any offset of the same bucket, find the entry; every other
   * code and bucket finds what it found before.
   */
  lemma StoreIsolates(t: Table, g1: Int32, x1: real, d: GlyphData, g2: Int32, x2: real)
    requires Segmented(t) && NonNegative(g1) && NonNegative(g2)
    ensures var k1 := KeyOf(g1, x1);
      Lookup(Store(WithSegment(t, k1), k1, Slot(g1), d), KeyOf(g2, x2), Slot(g2))
      == if g1 == g2 && Quantize(x1) == Quantize(x2) then Some(d) else Lookup(t, KeyOf(g2, x2), Slot(g2))
  {
    var k1, k2 := KeyOf(g1, x1), KeyOf(g2, x2);
    WithSegmentKeepsLookups(t, k1);
    StoreLookup(WithSegment(t, k1), k1, Slot(g1), d, k2, Slot(g2));
    SameCell(g1, x1, g2, x2);
  }

  /** Writing one slot changes the lookup of that slot only. */
  lemma StoreLookup(t: Table, k1: Integer, s1: nat, d: GlyphData, k2: Integer, s2: nat)
    requires k1 in t && s1 < |t[k1]|
    ensures Lookup(Store(t, k1, s1, d), k2, s2) == if k1 == k2 && s1 == s2 then Some(d) else Lookup(t, k2, s2)
  {
  }

  /** Two requests share a key and a slot exactly when they are for the same code in the same bucket. */
  lemma SameCell(g1: Int32, x1: real, g2: Int32, x2: real)
    requires NonNegative(g1) && NonNegative(g2)
    ensures (KeyOf(g1, x1) == KeyOf(g2, x2) && Slot(g1) == Slot(g2)) <==> (g1 == g2 && Quantize(x1) == Quantize(x2))
  {
    KeyInjective(g1, Quantize(x1), g2, Quantize(x2));
    SlotInjective(g1, g2);
  }

  /**
   * A step handed to the solver for `SameCell`: equal slots of
   * non-negative codes come from equal remainders.
   */
  lemma SlotInjective(g1: Int32, g2: Int32)
    requires NonNegative(g1) && NonNegative(g2)
    ensures Slot(g1) == Slot(g2) ==> SubIndex(g1) == SubIndex(g2)
  {
  }

  /** A turn that was not cut short by a break is a skipped placeholder or a fetch. */
  lemma TurnOfFetch(strike: Int32 -> Option<Glyph>, r: RenderArgs, gi: nat, before: Snapshot, after: Snapshot,
                    data: Option<GlyphData>, a: Answers)
    requires ListShape(r.gl) && gi < |r.gl.codes| && NonNegative(r.gl.codes[gi])
    requires r.gl.codes[gi] == INVISIBLE_GLYPH_ID ==> data.None? && after == before
    requires r.gl.codes[gi] != INVISIBLE_GLYPH_ID ==>
      && Segmented(before.table)
      && Fetched(strike, r.gl.codes[gi], PenOf(r, gi).subPixelX, before, after, data, a)
    ensures Turn(strike, r, gi, false, before, after, data, a)
  {
  }

  /** The fetch record of a glyph the cache was not asked about. */
  const NoAnswers := Answers(Rect(0, 0, 0, 0), true, true, true)

  /** Render's turns over the first `n` glyphs carry over to answers, snapshots and fetch records that agree on them. */
  lemma TurnsPrefix(strike: Int32 -> Option<Glyph>, r: RenderArgs,
                    a: seq<Option<GlyphData>>, b: seq<Option<GlyphData>>,
                    sa: seq<Snapshot>, sb: seq<Snapshot>, aa: seq<Answers>, ab: seq<Answers>, n: nat)
    requires ListShape(r.gl) && n <= |r.gl.codes| && forall i :: 0 <= i < |r.gl.codes| ==> NonNegative(r.gl.codes[i])
    requires n <= |a| && n <= |b| && n < |sa| && n < |sb| && n <= |aa| && n <= |ab|
    requires forall i :: 0 <= i < n ==> a[i] == b[i] && aa[i] == ab[i]
    requires forall i :: 0 <= i <= n ==> sa[i] == sb[i]
    requires forall i :: 0 <= i < n ==> Turn(strike, r, i, StoppedBefore(r, a, i), sa[i], sa[i + 1], a[i], aa[i])
    ensures forall i :: 0 <= i < n ==> Turn(strike, r, i, StoppedBefore(r, b, i), sb[i], sb[i + 1], b[i], ab[i])
  {
    forall i | 0 <= i < n
      ensures Turn(strike, r, i, StoppedBefore(r, b, i), sb[i], sb[i + 1], b[i], ab[i])
    {
      StoppedBeforePrefix(r, a, b, i);
    }
  }

  /** After the break every later turn asks nothing and changes nothing. */
  lemma TurnsAfterStop(strike: Int32 -> Option<Glyph>, r: RenderArgs, b: seq<Option<GlyphData>>,
                       sb: seq<Snapshot>, ab: seq<Answers>, n: nat, m: nat)
    requires ListShape(r.gl) && n <= m <= |r.gl.codes| && forall i :: 0 <= i < |r.gl.codes| ==> NonNegative(r.gl.codes[i])
    requires m <= |b| && m < |sb| && m <= |ab|
    requires StoppedBefore(r, b, n)
    requires forall i :: n <= i < m ==> b[i].None? && sb[i + 1] == sb[i]
    ensures forall i :: n <= i < m ==> Turn(strike, r, i, StoppedBefore(r, b, i), sb[i], sb[i + 1], b[i], ab[i])
  {
    forall i | n <= i < m
      ensures StoppedBefore(r, b, i)
    {
      StoppedBeforeStays(r, b, n, i);
    }
  }

  /** One more turn, taken before the walk stopped, extends the turns of `render`'s loop. */
  lemma TurnsExtend(strike: Int32 -> Option<Glyph>, r: RenderArgs, looked: seq<Option<GlyphData>>, d: Option<GlyphData>,
                    snaps: seq<Snapshot>, s: Snapshot, answers: seq<Answers>, a: Answers, n: nat)
    requires ListShape(r.gl) && n < |r.gl.codes| && forall i :: 0 <= i < |r.gl.codes| ==> NonNegative(r.gl.codes[i])
    requires |looked| == n && |snaps| == n + 1 && |answers| == n
    requires forall i :: 0 <= i < n ==>
      Turn(strike, r, i, StoppedBefore(r, looked, i), snaps[i], snaps[i + 1], looked[i], answers[i])
    requires !StoppedBefore(r, looked, n) && Turn(strike, r, n, false, snaps[n], s, d, a)
    ensures forall i :: 0 <= i < n + 1 ==>
      Turn(strike, r, i, StoppedBefore(r, looked + [d], i), (snaps + [s])[i], (snaps + [s])[i + 1], (looked + [d])[i], (answers + [a])[i])
  {
    TurnsPrefix(strike, r, looked, looked + [d], snaps, snaps + [s], answers, answers + [a], n);
    StoppedBeforePrefix(r, looked, looked + [d], n);
  }

  /**
   * When the loop of `render` ends after `n` glyphs, the glyphs it did not
   * reach (there are some only if it broke) ask nothing and change nothing.
   */
  lemma TurnsPadded(strike: Int32 -> Option<Glyph>, r: RenderArgs, looked: seq<Option<GlyphData>>,
                    snaps: seq<Snapshot>, answers: seq<Answers>, n: nat, m: nat)
    requires ListShape(r.gl) && n <= m == |r.gl.codes| && forall i :: 0 <= i < |r.gl.codes| ==> NonNegative(r.gl.codes[i])
    requires |looked| == n && |snaps| == n + 1 && |answers| == n
    requires n < m ==> StoppedBefore(r, looked, n)
    requires forall i :: 0 <= i < n ==>
      Turn(strike, r, i, StoppedBefore(r, looked, i), snaps[i], snaps[i + 1], looked[i], answers[i])
    ensures var b, sb, ab := Padded(looked, m - n, None), Padded(snaps, m - n, snaps[n]), Padded(answers, m - n, NoAnswers);
      forall i :: 0 <= i < m ==> Turn(strike, r, i, StoppedBefore(r, b, i), sb[i], sb[i + 1], b[i], ab[i])
  {
    var b, sb, ab := Padded(looked, m - n, None), Padded(snaps, m - n, snaps[n]), Padded(answers, m - n, NoAnswers);
    TurnsPrefix(strike, r, looked, b, snaps, sb, answers, ab, n);
    if n < m {
      StoppedBeforePrefix(r, looked, b, n);
      TurnsAfterStop(strike, r, b, sb, ab, n, m);
    }
  }
}
