/**
 * The rectangle packer the glyph cache reserves atlas space with. Its bin
 * packing is not part of this model: `Add` either places the rectangle at
 * some free position inside the atlas or reports that it is full, and may
 * report full even when a free position exists, but never on an empty
 * atlas for a rectangle no larger than the atlas.
 */
module Packing {

  /** `com.sun.javafx.geom.Rectangle`: a position and a size in atlas pixels. */
  datatype Rect = Rect(x: int, y: int, width: int, height: int)

  predicate Inside(r: Rect, width: int, height: int)
  {
    0 <= r.x && 0 <= r.y && 0 <= r.width && 0 <= r.height &&
    r.x + r.width <= width && r.y + r.height <= height
  }

  predicate Disjoint(a: Rect, b: Rect)
  {
    a.x + a.width <= b.x || b.x + b.width <= a.x ||
    a.y + a.height <= b.y || b.y + b.height <= a.y
  }

  /** Whether a rectangle of `r`'s size fits in an empty `width` by `height` area. */
  predicate FitsIn(r: Rect, width: int, height: int)
  {
    0 <= r.width <= width && 0 <= r.height <= height
  }

  /** Whether `r` lies inside a `width` by `height` area and overlaps none of `placed`. */
  predicate FreeAmong(placed: seq<Rect>, r: Rect, width: int, height: int)
  {
    Inside(r, width, height) && forall i :: 0 <= i < |placed| ==> Disjoint(placed[i], r)
  }

  class RectanglePacker {
    const width: int
    const height: int
    /** The rectangles placed since the last clear. */
    var placed: seq<Rect>

    /** Every placed rectangle lies inside the atlas and overlaps no other. */
    ghost predicate Valid()
      reads this
    {
      && 0 <= width && 0 <= height
      && (forall i :: 0 <= i < |placed| ==> Inside(placed[i], width, height))
      && (forall i, j :: 0 <= i < j < |placed| ==> Disjoint(placed[i], placed[j]))
    }

    constructor (width: int, height: int)
      requires 0 <= width && 0 <= height
      ensures Valid() && this.width == width && this.height == height && placed == []
    {
      this.width := width;
      this.height := height;
      placed := [];
    }

    /** Whether `r` could be placed now without overlapping a placed rectangle. */
    predicate Free(r: Rect)
      reads this
    {
      FreeAmong(placed, r, width, height)
    }

    /**
     * `add`: on success the rectangle gets a free position and is recorded;
     * on failure nothing changes and the rectangle keeps its position.
     * An empty packer places every rectangle that fits the atlas.
     */
    method Add(r: Rect) returns (ok: bool, at: Rect)
      requires Valid()
      modifies this
      ensures Valid()
      ensures at.width == r.width && at.height == r.height
      ensures ok ==> old(Free(at)) && placed == old(placed) + [at]
      ensures !ok ==> at == r && placed == old(placed)
      ensures old(placed) == [] && FitsIn(r, width, height) ==> ok
    {
      var tries: bool :| true;
      if placed == [] && FitsIn(r, width, height) {
        assert Free(Rect(0, 0, r.width, r.height));
      }
      if (tries || placed == []) && FitsIn(r, width, height) &&
         exists px, py :: 0 <= px <= width - r.width && 0 <= py <= height - r.height &&
                          Free(Rect(px, py, r.width, r.height))
      {
        var px, py :| 0 <= px <= width - r.width && 0 <= py <= height - r.height &&
                      Free(Rect(px, py, r.width, r.height));
        at := Rect(px, py, r.width, r.height);
        placed := placed + [at];
        ok := true;
      } else {
        ok, at := false, r;
      }
    }

    /** `clear`: the whole atlas is free again. */
    method Clear()
      requires Valid()
      modifies this
      ensures Valid() && placed == []
    {
      placed := [];
    }
  }
}
