/**
 * What `render` draws for a glyph run, as a function of the entries the
 * cache returned for its glyphs: the walk over the run that skips the
 * invisible placeholder glyph and glyphs without an entry, stops at the
 * first glyph past the right edge of the clip, skips glyphs left of it,
 * switches the vertex colour between the selection colour and the text
 * colour only when it changes, and emits a quad for every entry that has a
 * rectangle in the atlas.
 */
module Rendering {
  import opened Wrappers
  import opened KeyEncoding
  import opened GlyphEntries

  /**
   * `CharToGlyphMapper.INVISIBLE_GLYPH_ID`, the placeholder glyph inserted
   * after a supplementary character.
   */
  const INVISIBLE_GLYPH_ID: Int32 := 0xFFFF

  /** The range of a Java `int`, which a float-to-int cast saturates to. */
  const INT_MIN: int := -0x8000_0000
  const INT_MAX: int := 0x7FFF_FFFF

  datatype Point = Point(x: real, y: real)

  /**
   * A colour object. The source compares colours by reference; two
   * `Color`s here are equal exactly when they stand for the same object.
   */
  datatype Color = Color(id: nat)

  /**
   * `GlyphList`: the glyph codes of a run, the pen position of each glyph
   * plus one past the last (where the run ends), and each glyph's offset in
   * the text.
   */
  datatype GlyphList = GlyphList(codes: seq<Int32>, posX: seq<real>, posY: seq<real>, charOffsets: seq<int>)

  predicate ListShape(gl: GlyphList)
  {
    |gl.posX| == |gl.codes| + 1 && |gl.posY| == |gl.codes| + 1 && |gl.charOffsets| == |gl.codes|
  }

  /** The user-space bounds of the clip that matter to `render`. */
  datatype Clip = Clip(minX: real, maxX: real)

  /**
   * The arguments of one `render` call and the strike's `isSubPixelGlyph`;
   * `xform` is the device transform, left uninterpreted.
   */
  datatype RenderArgs = RenderArgs(gl: GlyphList, x: real, y: real, start: int, end: int,
                                   rangeColor: Option<Color>, textColor: Option<Color>,
                                   xform: Point -> Point, clip: Option<Clip>, subPixel: bool)

  /**
   * What reaches the vertex buffer: a per-vertex colour, or a glyph quad at
   * a device point with the size of the glyph inside its blank boundary.
   */
  datatype VertexOp = SetColor(color: Color) | Quad(glyphIndex: nat, at: Point, width: int, height: int)

  /** The state of the walk: the output so far, the current colour, and whether it stopped at the clip. */
  datatype WalkState = WalkState(ops: seq<VertexOp>, current: Option<Color>, stopped: bool)

  /**
   * Java's `(int)` on a float: rounds toward zero, and saturates at the
   * bounds of `int`.
   */
  function FloatToInt(r: real): (n: int)
    ensures INT_MIN <= n <= INT_MAX
    ensures INT_MIN as real <= r <= INT_MAX as real ==> -1.0 < r - n as real < 1.0
    ensures 0.0 <= r <= INT_MAX as real ==> 0.0 <= r - n as real
    ensures INT_MIN as real <= r <= 0.0 ==> r - n as real <= 0.0
    ensures r >= INT_MAX as real ==> n == INT_MAX
    ensures r <= INT_MIN as real ==> n == INT_MIN
  {
    if r >= INT_MAX as real then INT_MAX
    else if r <= INT_MIN as real then INT_MIN
    else if r >= 0.0 then r.Floor
    else -((-r).Floor)
  }

  /** Where a glyph is drawn before the transform, and the sub-pixel offset its entry is looked up at. */
  datatype Pen = Pen(at: Point, subPixelX: real)

  /**
   * Lines 144-149: the pen is the run origin plus the glyph position; for
   * sub-pixel glyphs its x is cut to an int and the cut-off fraction is the
   * sub-pixel offset, otherwise the offset is 0.
   */
  function PenOf(r: RenderArgs, gi: nat): (p: Pen)
    requires ListShape(r.gl) && gi < |r.gl.codes|
    ensures p.at.y == r.y + r.gl.posY[gi]
    ensures !r.subPixel ==> p.at.x == r.x + r.gl.posX[gi] && p.subPixelX == 0.0
    ensures r.subPixel ==> p.at.x + p.subPixelX == r.x + r.gl.posX[gi] && p.at.x == FloatToInt(r.x + r.gl.posX[gi]) as real
  {
    var px, py := r.x + r.gl.posX[gi], r.y + r.gl.posY[gi];
    if r.subPixel then
      var cut := FloatToInt(px) as real;
      Pen(Point(cut, py), px - cut)
    else
      Pen(Point(px, py), 0.0)
  }

  /**
   * A glyph whose pen x is negative (and within `int` range) is looked up
   * in the first bucket, because the cast rounds toward zero and leaves a
   * negative fraction; a non-negative pen x leaves a fraction in [0, 1)
   * that is rounded down to a quarter.
   */
  lemma SubPixelBucket(r: RenderArgs, gi: nat)
    requires ListShape(r.gl) && gi < |r.gl.codes| && r.subPixel
    requires INT_MIN as real <= r.x + r.gl.posX[gi] <= INT_MAX as real
    ensures r.x + r.gl.posX[gi] < 0.0 ==> Quantize(PenOf(r, gi).subPixelX) == Zero
    ensures 0.0 <= r.x + r.gl.posX[gi] ==>
      var f := PenOf(r, gi).subPixelX;
      0.0 <= f < 1.0 && Offset(Quantize(f)) <= f < Offset(Quantize(f)) + 0.25
  {
    var f := PenOf(r, gi).subPixelX;
    if 0.0 <= r.x + r.gl.posX[gi] {
      QuantizeRoundsDown(f);
    }
  }

  /** The colour a glyph is drawn in when both colours are given: the selection colour inside [start, end). */
  function Selected(r: RenderArgs, gi: nat): (c: Color)
    requires ListShape(r.gl) && gi < |r.gl.codes| && r.rangeColor.Some? && r.textColor.Some?
    ensures r.start <= r.gl.charOffsets[gi] < r.end ==> c == r.rangeColor.value
    ensures !(r.start <= r.gl.charOffsets[gi] < r.end) ==> c == r.textColor.value
  {
    var offset := r.gl.charOffsets[gi];
    if r.start <= offset && offset < r.end then r.rangeColor.value else r.textColor.value
  }

  /** Lines 164-177: switch to the glyph's colour if both colours are given and it is not the current one. */
  function Paint(r: RenderArgs, gi: nat, s: WalkState): WalkState
    requires ListShape(r.gl) && gi < |r.gl.codes|
  {
    if r.rangeColor.Some? && r.textColor.Some? then
      var c := Selected(r, gi);
      if s.current != Some(c) then WalkState(s.ops + [SetColor(c)], Some(c), s.stopped) else s
    else s
  }

  /** `addDataToQuad`: nothing for an entry without a rectangle, otherwise one quad of the glyph's size. */
  function QuadOps(gi: nat, d: GlyphData, at: Point): (q: seq<VertexOp>)
    ensures d.rect.None? <==> q == []
    ensures d.rect.Some? ==> q == [Quad(gi, at, DrawnWidth(d), DrawnHeight(d))]
  {
    if d.rect.None? then [] else [Quad(gi, at, DrawnWidth(d), DrawnHeight(d))]
  }

  /** The glyph is one the cache is asked about and answered for. */
  predicate Reached(r: RenderArgs, results: seq<Option<GlyphData>>, i: nat)
    requires i < |r.gl.codes| && i < |results|
  {
    r.gl.codes[i] != INVISIBLE_GLYPH_ID && results[i].Some?
  }

  /** The glyph starts right of the clip. */
  predicate Beyond(r: RenderArgs, i: nat)
    requires ListShape(r.gl) && i < |r.gl.codes|
  {
    r.clip.Some? && r.x + r.gl.posX[i] > r.clip.value.maxX
  }

  /** The glyph ends left of the clip. */
  predicate LeftOf(r: RenderArgs, i: nat)
    requires ListShape(r.gl) && i < |r.gl.codes|
  {
    r.clip.Some? && r.x + r.gl.posX[i + 1] < r.clip.value.minX
  }

  /** The pens of every glyph of the run. */
  function Pens(r: RenderArgs): (pens: seq<Pen>)
    requires ListShape(r.gl)
    ensures |pens| == |r.gl.codes|
    ensures forall i :: 0 <= i < |pens| ==> pens[i] == PenOf(r, i)
  {
    seq(|r.gl.codes|, i requires 0 <= i < |r.gl.codes| => PenOf(r, i))
  }

  /** Lines 135-181, one glyph: the state after glyph `gi`, drawn at `pen`, whose lookup gave `answer`. */
  function Step(r: RenderArgs, pen: Pen, answer: Option<GlyphData>, gi: nat, s: WalkState): WalkState
    requires ListShape(r.gl) && gi < |r.gl.codes|
  {
    if r.gl.codes[gi] == INVISIBLE_GLYPH_ID || answer.None? then s
    else if Beyond(r, gi) then WalkState(s.ops, s.current, true)
    else if LeftOf(r, gi) then s
    else
      var painted := Paint(r, gi, s);
      WalkState(painted.ops + QuadOps(gi, answer.value, r.xform(pen.at)), painted.current, painted.stopped)
  }

  /** A step only appends to the output: it does the same after any earlier output as after none. */
  lemma StepAppends(r: RenderArgs, pen: Pen, answer: Option<GlyphData>, gi: nat, ops: seq<VertexOp>, current: Option<Color>)
    requires ListShape(r.gl) && gi < |r.gl.codes|
    ensures var alone := Step(r, pen, answer, gi, WalkState([], current, false));
      Step(r, pen, answer, gi, WalkState(ops, current, false)) == WalkState(ops + alone.ops, alone.current, alone.stopped)
  {
    var alone := Step(r, pen, answer, gi, WalkState([], current, false));
    if r.gl.codes[gi] != INVISIBLE_GLYPH_ID && answer.Some? && !Beyond(r, gi) && !LeftOf(r, gi) {
      var painted := Paint(r, gi, WalkState(ops, current, false));
      var q := QuadOps(gi, answer.value, r.xform(pen.at));
      assert painted.ops == ops + Paint(r, gi, WalkState([], current, false)).ops;
      assert painted.ops + q == ops + (Paint(r, gi, WalkState([], current, false)).ops + q);
    }
  }

  /**
   * The walk over the first `n` glyphs, given the pen and the cache's
   * answer for each; `render` walks with `Pens`.
   */
  function Walk(r: RenderArgs, pens: seq<Pen>, results: seq<Option<GlyphData>>, n: nat): WalkState
    requires ListShape(r.gl) && n <= |r.gl.codes| && n <= |pens| && n <= |results|
  {
    if n == 0 then WalkState([], None, false)
    else
      var s := Walk(r, pens, results, n - 1);
      if s.stopped then s else Step(r, pens[n - 1], results[n - 1], n - 1, s)
  }

  // ---------------------------------------------------------------------
  // An independent description of what is drawn
  // ---------------------------------------------------------------------

  /** The walk stops at glyph `i`. */
  predicate Stops(r: RenderArgs, results: seq<Option<GlyphData>>, i: nat)
    requires ListShape(r.gl) && i < |r.gl.codes| && i < |results|
  {
    Reached(r, results, i) && Beyond(r, i)
  }

  /** A glyph gets a quad if the walk reaches it: it has an entry with a rectangle and lies inside the clip. */
  predicate Drawable(r: RenderArgs, results: seq<Option<GlyphData>>, i: nat)
    requires ListShape(r.gl) && i < |r.gl.codes| && i < |results|
  {
    Reached(r, results, i) && !Beyond(r, i) && !LeftOf(r, i) && results[i].value.rect.Some?
  }

  /** Some glyph before `i` stops the walk. */
  predicate StoppedBefore(r: RenderArgs, results: seq<Option<GlyphData>>, i: nat)
    requires ListShape(r.gl) && i <= |r.gl.codes| && i <= |results|
  {
    i > 0 && (StoppedBefore(r, results, i - 1) || Stops(r, results, i - 1))
  }

  lemma {:induction false} StoppedBeforeMeans(r: RenderArgs, results: seq<Option<GlyphData>>, i: nat)
    requires ListShape(r.gl) && i <= |r.gl.codes| && i <= |results|
    ensures StoppedBefore(r, results, i) <==> exists j :: 0 <= j < i && Stops(r, results, j)
  {
    if i > 0 {
      StoppedBeforeMeans(r, results, i - 1);
      if StoppedBefore(r, results, i - 1) {
        var j :| 0 <= j < i - 1 && Stops(r, results, j);
        assert 0 <= j < i && Stops(r, results, j);
      }
    }
  }

  /** Whether the walk stopped before glyph `i` depends only on the answers for the glyphs before it. */
  lemma {:induction false} StoppedBeforePrefix(r: RenderArgs, a: seq<Option<GlyphData>>, b: seq<Option<GlyphData>>, i: nat)
    requires ListShape(r.gl) && i <= |r.gl.codes| && i <= |a| && i <= |b|
    requires forall j :: 0 <= j < i ==> a[j] == b[j]
    ensures StoppedBefore(r, a, i) == StoppedBefore(r, b, i)
  {
    if i > 0 {
      StoppedBeforePrefix(r, a, b, i - 1);
    }
  }

  /** Once the walk has stopped it stays stopped. */
  lemma {:induction false} StoppedBeforeStays(r: RenderArgs, results: seq<Option<GlyphData>>, i: nat, j: nat)
    requires ListShape(r.gl) && i <= j <= |r.gl.codes| && j <= |results|
    requires StoppedBefore(r, results, i)
    ensures StoppedBefore(r, results, j)
    decreases j - i
  {
    if i < j {
      StoppedBeforeStays(r, results, i, j - 1);
    }
  }

  /** The indices among the first `n` glyphs that are drawable and come before any stop, in order. */
  function DrawnIndices(r: RenderArgs, results: seq<Option<GlyphData>>, n: nat): seq<nat>
    requires ListShape(r.gl) && n <= |r.gl.codes| && n <= |results|
  {
    if n == 0 then []
    else DrawnIndices(r, results, n - 1)
         + (if Drawable(r, results, n - 1) && !StoppedBefore(r, results, n - 1) then [n - 1] else [])
  }

  /** The glyph indices of the quads, in order. */
  function QuadIndices(ops: seq<VertexOp>): seq<nat>
  {
    if ops == [] then []
    else QuadIndices(ops[..|ops| - 1]) + (if ops[|ops| - 1].Quad? then [ops[|ops| - 1].glyphIndex] else [])
  }

  lemma QuadIndicesAppend(ops: seq<VertexOp>, more: seq<VertexOp>)
    ensures QuadIndices(ops + more) == QuadIndices(ops) + QuadIndices(more)
    decreases |more|
  {
    if more == [] {
      assert ops + more == ops;
    } else {
      var last := |more| - 1;
      assert (ops + more)[..|ops + more| - 1] == ops + more[..last];
      QuadIndicesAppend(ops, more[..last]);
    }
  }

  /** Painting adds no quad. */
  lemma PaintAddsNoQuad(r: RenderArgs, gi: nat, s: WalkState)
    requires ListShape(r.gl) && gi < |r.gl.codes|
    ensures QuadIndices(Paint(r, gi, s).ops) == QuadIndices(s.ops)
  {
    var painted := Paint(r, gi, s);
    if painted.ops != s.ops {
      assert painted.ops[..|painted.ops| - 1] == s.ops;
    }
  }

  /** One step adds the glyph's index exactly when the glyph is drawable. */
  lemma StepQuads(r: RenderArgs, pens: seq<Pen>, results: seq<Option<GlyphData>>, gi: nat, s: WalkState)
    requires ListShape(r.gl) && gi < |r.gl.codes| && gi < |pens| && gi < |results|
    ensures QuadIndices(Step(r, pens[gi], results[gi], gi, s).ops)
            == QuadIndices(s.ops) + (if Drawable(r, results, gi) then [gi] else [])
  {
    if Reached(r, results, gi) && !Beyond(r, gi) && !LeftOf(r, gi) {
      var painted := Paint(r, gi, s);
      var q := QuadOps(gi, results[gi].value, r.xform(pens[gi].at));
      PaintAddsNoQuad(r, gi, s);
      QuadIndicesAppend(painted.ops, q);
      if q != [] {
        assert QuadIndices(q) == QuadIndices(q[..0]) + [gi];
      }
    }
  }

  /** The walk has stopped after `n` glyphs exactly when one of them stopped it. */
  lemma {:induction false} WalkStopped(r: RenderArgs, pens: seq<Pen>, results: seq<Option<GlyphData>>, n: nat)
    requires ListShape(r.gl) && n <= |r.gl.codes| && n <= |pens| && n <= |results|
    ensures Walk(r, pens, results, n).stopped == StoppedBefore(r, results, n)
  {
    if n > 0 {
      WalkStopped(r, pens, results, n - 1);
      var s := Walk(r, pens, results, n - 1);
      if !s.stopped {
        assert Paint(r, n - 1, s).stopped == s.stopped;
        assert Walk(r, pens, results, n).stopped == Stops(r, results, n - 1);
      }
    }
  }

  /** The walk stops exactly when some glyph so far is reached past the right edge of the clip. */
  lemma WalkStopsExactly(r: RenderArgs, pens: seq<Pen>, results: seq<Option<GlyphData>>, n: nat)
    requires ListShape(r.gl) && n <= |r.gl.codes| && n <= |pens| && n <= |results|
    ensures Walk(r, pens, results, n).stopped <==> exists j :: 0 <= j < n && Stops(r, results, j)
  {
    WalkStopped(r, pens, results, n);
    StoppedBeforeMeans(r, results, n);
  }

  /**
   * One more glyph: the walk either has already stopped or takes one more
   * step. A step handed to the solver, which does not unfold `Walk` on its
   * own inside the larger proofs.
   */
  lemma WalkUnfolds(r: RenderArgs, pens: seq<Pen>, results: seq<Option<GlyphData>>, n: nat)
    requires ListShape(r.gl) && 0 < n <= |r.gl.codes| && n <= |pens| && n <= |results|
    ensures var s := Walk(r, pens, results, n - 1);
      Walk(r, pens, results, n) == if s.stopped then s else Step(r, pens[n - 1], results[n - 1], n - 1, s)
  {
  }

  /** The quads after one more glyph, for a walk state `s` and its successor `t`. */
  lemma NextQuads(r: RenderArgs, pens: seq<Pen>, results: seq<Option<GlyphData>>, gi: nat, s: WalkState, t: WalkState)
    requires ListShape(r.gl) && gi < |r.gl.codes| && gi < |pens| && gi < |results|
    requires t == if s.stopped then s else Step(r, pens[gi], results[gi], gi, s)
    ensures QuadIndices(t.ops) == QuadIndices(s.ops) + (if !s.stopped && Drawable(r, results, gi) then [gi] else [])
  {
    if !s.stopped {
      StepQuads(r, pens, results, gi, s);
    }
  }

  /** The inductive step of `WalkDrawsExactly`, for a walk state `s` over `n - 1` glyphs and its successor `t`. */
  lemma DrawsNext(r: RenderArgs, results: seq<Option<GlyphData>>, n: nat, s: WalkState, t: WalkState)
    requires ListShape(r.gl) && 0 < n <= |r.gl.codes| && n <= |results|
    requires QuadIndices(s.ops) == DrawnIndices(r, results, n - 1)
    requires s.stopped == StoppedBefore(r, results, n - 1)
    requires QuadIndices(t.ops) == QuadIndices(s.ops) + (if !s.stopped && Drawable(r, results, n - 1) then [n - 1] else [])
    ensures QuadIndices(t.ops) == DrawnIndices(r, results, n)
  {
  }

  /**
   * The quads of the walk are exactly the drawable glyphs before the first
   * stop, in run order.
   */
  lemma {:induction false} WalkDrawsExactly(r: RenderArgs, pens: seq<Pen>, results: seq<Option<GlyphData>>, n: nat)
    requires ListShape(r.gl) && n <= |r.gl.codes| && n <= |pens| && n <= |results|
    ensures QuadIndices(Walk(r, pens, results, n).ops) == DrawnIndices(r, results, n)
  {
    if n > 0 {
      WalkDrawsExactly(r, pens, results, n - 1);
      DrawsStep(r, pens, results, n);
    }
  }

  lemma DrawsStep(r: RenderArgs, pens: seq<Pen>, results: seq<Option<GlyphData>>, n: nat)
    requires ListShape(r.gl) && 0 < n <= |r.gl.codes| && n <= |pens| && n <= |results|
    requires QuadIndices(Walk(r, pens, results, n - 1).ops) == DrawnIndices(r, results, n - 1)
    ensures QuadIndices(Walk(r, pens, results, n).ops) == DrawnIndices(r, results, n)
  {
    WalkStopped(r, pens, results, n - 1);
    WalkUnfolds(r, pens, results, n);
    DrawsNextState(r, pens, results, n, Walk(r, pens, results, n - 1), Walk(r, pens, results, n));
  }

  /** `DrawsStep` for a walk state `s` over `n - 1` glyphs and its successor `t`. */
  lemma DrawsNextState(r: RenderArgs, pens: seq<Pen>, results: seq<Option<GlyphData>>, n: nat, s: WalkState, t: WalkState)
    requires ListShape(r.gl) && 0 < n <= |r.gl.codes| && n <= |pens| && n <= |results|
    requires QuadIndices(s.ops) == DrawnIndices(r, results, n - 1)
    requires s.stopped == StoppedBefore(r, results, n - 1)
    requires t == if s.stopped then s else Step(r, pens[n - 1], results[n - 1], n - 1, s)
    ensures QuadIndices(t.ops) == DrawnIndices(r, results, n)
  {
    NextQuads(r, pens, results, n - 1, s, t);
    DrawsNext(r, results, n, s, t);
  }

  // ---------------------------------------------------------------------
  // Colours
  // ---------------------------------------------------------------------

  /** The colour in force after `ops`: the last one set, if any. */
  function LastColor(ops: seq<VertexOp>): Option<Color>
  {
    if ops == [] then None
    else if ops[|ops| - 1].SetColor? then Some(ops[|ops| - 1].color)
    else LastColor(ops[..|ops| - 1])
  }

  /** No colour is set while it is already in force. */
  predicate NoRedundantColor(ops: seq<VertexOp>)
  {
    forall k :: 0 <= k < |ops| && ops[k].SetColor? ==> LastColor(ops[..k]) != Some(ops[k].color)
  }

  /** Every quad is drawn in its glyph's selected colour. */
  predicate QuadsInSelectedColor(r: RenderArgs, ops: seq<VertexOp>)
    requires ListShape(r.gl) && r.rangeColor.Some? && r.textColor.Some?
  {
    forall k :: 0 <= k < |ops| && ops[k].Quad? ==>
      ops[k].glyphIndex < |r.gl.codes| && LastColor(ops[..k]) == Some(Selected(r, ops[k].glyphIndex))
  }

  predicate OnlyQuads(ops: seq<VertexOp>)
  {
    forall k :: 0 <= k < |ops| ==> ops[k].Quad?
  }

  /** Whether `op`, emitted after `ops`, keeps the colour rules. */
  predicate Respects(r: RenderArgs, ops: seq<VertexOp>, op: VertexOp)
    requires ListShape(r.gl)
  {
    && (op.SetColor? ==> LastColor(ops) != Some(op.color))
    && (r.rangeColor.Some? && r.textColor.Some? && op.Quad? ==>
          op.glyphIndex < |r.gl.codes| && LastColor(ops) == Some(Selected(r, op.glyphIndex)))
    && (r.rangeColor.None? || r.textColor.None? ==> op.Quad?)
  }

  /** Every operation keeps the colour rules given the operations before it. */
  predicate ColorsRespected(r: RenderArgs, ops: seq<VertexOp>)
    requires ListShape(r.gl)
    decreases |ops|
  {
    ops == [] || (ColorsRespected(r, ops[..|ops| - 1]) && Respects(r, ops[..|ops| - 1], ops[|ops| - 1]))
  }

  /** The colour invariant of the walk: it holds for the empty output and each step keeps it. */
  predicate ColorInvariant(r: RenderArgs, s: WalkState)
    requires ListShape(r.gl)
  {
    s.current == LastColor(s.ops) && ColorsRespected(r, s.ops)
  }

  /** One more operation that keeps the rules keeps them for the whole run, and moves the colour only for a SetColor. */
  lemma AppendRespecting(r: RenderArgs, ops: seq<VertexOp>, op: VertexOp)
    requires ListShape(r.gl) && ColorsRespected(r, ops) && Respects(r, ops, op)
    ensures ColorsRespected(r, ops + [op])
    ensures LastColor(ops + [op]) == if op.SetColor? then Some(op.color) else LastColor(ops)
  {
    assert (ops + [op])[..|ops|] == ops;
  }

  lemma StepKeepsColors(r: RenderArgs, pens: seq<Pen>, results: seq<Option<GlyphData>>, gi: nat, s: WalkState)
    requires ListShape(r.gl) && gi < |r.gl.codes| && gi < |pens| && gi < |results|
    requires ColorInvariant(r, s)
    ensures ColorInvariant(r, Step(r, pens[gi], results[gi], gi, s))
  {
    if Reached(r, results, gi) && !Beyond(r, gi) && !LeftOf(r, gi) {
      var painted := Paint(r, gi, s);
      if painted.ops != s.ops {
        AppendRespecting(r, s.ops, SetColor(Selected(r, gi)));
      }
      assert ColorInvariant(r, painted);
      assert r.rangeColor.Some? && r.textColor.Some? ==> painted.current == Some(Selected(r, gi));
      var q := QuadOps(gi, results[gi].value, r.xform(pens[gi].at));
      if q != [] {
        AppendRespecting(r, painted.ops, q[0]);
        assert painted.ops + q == painted.ops + [q[0]];
      } else {
        assert painted.ops + q == painted.ops;
      }
    }
  }

  /** The inductive step of `WalkKeepsColors`, for a walk state `s` and its successor `t`. */
  lemma ColorsNext(r: RenderArgs, pens: seq<Pen>, results: seq<Option<GlyphData>>, gi: nat, s: WalkState, t: WalkState)
    requires ListShape(r.gl) && gi < |r.gl.codes| && gi < |pens| && gi < |results|
    requires ColorInvariant(r, s)
    requires t == if s.stopped then s else Step(r, pens[gi], results[gi], gi, s)
    ensures ColorInvariant(r, t)
  {
    if !s.stopped {
      StepKeepsColors(r, pens, results, gi, s);
    }
  }

  /** A step handed to the solver: the colour invariant carries over to an equal walk state. */
  lemma SameInvariant(r: RenderArgs, s: WalkState, t: WalkState)
    requires ListShape(r.gl) && ColorInvariant(r, s) && s == t
    ensures ColorInvariant(r, t)
  {
  }

  lemma ColorsStep(r: RenderArgs, pens: seq<Pen>, results: seq<Option<GlyphData>>, n: nat)
    requires ListShape(r.gl) && 0 < n <= |r.gl.codes| && n <= |pens| && n <= |results|
    requires ColorInvariant(r, Walk(r, pens, results, n - 1))
    ensures ColorInvariant(r, Walk(r, pens, results, n))
  {
    WalkUnfolds(r, pens, results, n);
    ColorsNext(r, pens, results, n - 1, Walk(r, pens, results, n - 1), Walk(r, pens, results, n));
  }

  /** The walk keeps the colour invariant. */
  lemma {:induction false} WalkKeepsColors(r: RenderArgs, pens: seq<Pen>, results: seq<Option<GlyphData>>, n: nat)
    requires ListShape(r.gl) && n <= |r.gl.codes| && n <= |pens| && n <= |results|
    ensures ColorInvariant(r, Walk(r, pens, results, n))
  {
    if n > 0 {
      WalkKeepsColors(r, pens, results, n - 1);
      ColorsStep(r, pens, results, n);
    } else {
      SameInvariant(r, WalkState([], None, false), Walk(r, pens, results, n));
    }
  }

  /** A run that keeps the colour rules never sets the colour in force. */
  lemma {:induction false} RespectedNoRedundant(r: RenderArgs, ops: seq<VertexOp>)
    requires ListShape(r.gl) && ColorsRespected(r, ops)
    ensures NoRedundantColor(ops)
    decreases |ops|
  {
    if ops != [] {
      var init := ops[..|ops| - 1];
      RespectedNoRedundant(r, init);
      forall k | 0 <= k < |ops| && ops[k].SetColor?
        ensures LastColor(ops[..k]) != Some(ops[k].color)
      {
        if k < |init| {
          assert ops[..k] == init[..k] && ops[k] == init[k];
        }
      }
    }
  }

  /** With both colours given, a run that keeps the colour rules draws every quad in its selected colour. */
  lemma {:induction false} RespectedSelected(r: RenderArgs, ops: seq<VertexOp>)
    requires ListShape(r.gl) && ColorsRespected(r, ops) && r.rangeColor.Some? && r.textColor.Some?
    ensures QuadsInSelectedColor(r, ops)
    decreases |ops|
  {
    if ops != [] {
      var init := ops[..|ops| - 1];
      RespectedSelected(r, init);
      forall k | 0 <= k < |ops| && ops[k].Quad?
        ensures ops[k].glyphIndex < |r.gl.codes| && LastColor(ops[..k]) == Some(Selected(r, ops[k].glyphIndex))
      {
        if k < |init| {
          assert ops[..k] == init[..k] && ops[k] == init[k];
        }
      }
    }
  }

  /** Without both colours, a run that keeps the colour rules holds only quads. */
  lemma {:induction false} RespectedOnlyQuads(r: RenderArgs, ops: seq<VertexOp>)
    requires ListShape(r.gl) && ColorsRespected(r, ops) && (r.rangeColor.None? || r.textColor.None?)
    ensures OnlyQuads(ops)
    decreases |ops|
  {
    if ops != [] {
      var init := ops[..|ops| - 1];
      RespectedOnlyQuads(r, init);
      forall k | 0 <= k < |init|
        ensures ops[k].Quad?
      {
        assert ops[k] == init[k];
      }
    }
  }

  /**
   * Every quad of a walk that has both colours is drawn in its glyph's
   * selected colour, a colour is set only when it differs from the one in
   * force, and the walk's current colour is the one in force. Without both
   * colours no colour is ever set.
   */
  lemma WalkColors(r: RenderArgs, pens: seq<Pen>, results: seq<Option<GlyphData>>, n: nat)
    requires ListShape(r.gl) && n <= |r.gl.codes| && n <= |pens| && n <= |results|
    ensures var s := Walk(r, pens, results, n);
      && s.current == LastColor(s.ops)
      && NoRedundantColor(s.ops)
      && (r.rangeColor.Some? && r.textColor.Some? ==> QuadsInSelectedColor(r, s.ops))
      && (r.rangeColor.None? || r.textColor.None? ==> OnlyQuads(s.ops))
  {
    WalkKeepsColors(r, pens, results, n);
    var ops := Walk(r, pens, results, n).ops;
    RespectedNoRedundant(r, ops);
    if r.rangeColor.Some? && r.textColor.Some? {
      RespectedSelected(r, ops);
    } else {
      RespectedOnlyQuads(r, ops);
    }
  }

  // ---------------------------------------------------------------------
  // Facts the render loop relies on
  // ---------------------------------------------------------------------

  /** The walk over `n` glyphs reads only the first `n` answers. */
  lemma {:induction false} WalkPrefix(r: RenderArgs, pens: seq<Pen>, a: seq<Option<GlyphData>>, b: seq<Option<GlyphData>>, n: nat)
    requires ListShape(r.gl) && n <= |r.gl.codes| && n <= |pens| && n <= |a| && n <= |b| && a[..n] == b[..n]
    ensures Walk(r, pens, a, n) == Walk(r, pens, b, n)
  {
    if n > 0 {
      assert a[..n - 1] == b[..n - 1] by {
        assert a[..n - 1] == a[..n][..n - 1];
        assert b[..n - 1] == b[..n][..n - 1];
      }
      WalkPrefix(r, pens, a, b, n - 1);
      assert a[n - 1] == a[..n][n - 1] == b[..n][n - 1] == b[n - 1];
    }
  }

  /** A sequence extended by `k` copies of `x`. */
  function Padded<T>(s: seq<T>, k: nat, x: T): (r: seq<T>)
    ensures |r| == |s| + k
    ensures forall i :: 0 <= i < |r| ==> r[i] == if i < |s| then s[i] else x
  {
    s + seq(k, _ => x)
  }

  /**
   * A walk over `n` glyphs that has stopped, or has reached the end of the
   * run, is the whole walk over the results padded with glyphs not looked up.
   */
  lemma WalkPadded(r: RenderArgs, pens: seq<Pen>, results: seq<Option<GlyphData>>, n: nat, m: nat)
    requires ListShape(r.gl) && n <= m == |r.gl.codes| && m <= |pens| && |results| == n
    requires n < m ==> Walk(r, pens, results, n).stopped
    ensures Walk(r, pens, Padded(results, m - n, None), m) == Walk(r, pens, results, n)
    ensures n < m ==> StoppedBefore(r, results, n)
  {
    var padded := Padded(results, m - n, None);
    assert results[..n] == padded[..n];
    WalkPrefix(r, pens, results, padded, n);
    if n < m {
      StopIsFinal(r, pens, padded, n, m);
      WalkStopped(r, pens, results, n);
    }
  }

  /** Once the walk has stopped, the later glyphs change nothing. */
  lemma {:induction false} StopIsFinal(r: RenderArgs, pens: seq<Pen>, results: seq<Option<GlyphData>>, n: nat, m: nat)
    requires ListShape(r.gl) && n <= m <= |r.gl.codes| && m <= |pens| && m <= |results|
    requires Walk(r, pens, results, n).stopped
    ensures Walk(r, pens, results, m) == Walk(r, pens, results, n)
    decreases m - n
  {
    if n < m {
      StopIsFinal(r, pens, results, n, m - 1);
    }
  }

  /**
   * Every quad belongs to a glyph whose entry has a rectangle, sits at the
   * transformed pen of that glyph, and has the size of the glyph inside
   * the blank boundary; so when every entry has a non-empty glyph inside
   * its boundary, so does every quad.
   */
  lemma {:induction false} QuadsMatchEntries(r: RenderArgs, pens: seq<Pen>, results: seq<Option<GlyphData>>, n: nat)
    requires ListShape(r.gl) && n <= |r.gl.codes| && n <= |pens| && n <= |results|
    ensures forall op :: op in Walk(r, pens, results, n).ops && op.Quad? ==>
      && op.glyphIndex < n && results[op.glyphIndex].Some? && results[op.glyphIndex].value.rect.Some?
      && op.at == r.xform(pens[op.glyphIndex].at)
      && op.width == DrawnWidth(results[op.glyphIndex].value)
      && op.height == DrawnHeight(results[op.glyphIndex].value)
  {
    if n > 0 {
      QuadsMatchEntries(r, pens, results, n - 1);
    }
  }
}
