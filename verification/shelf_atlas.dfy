/**
 * The older shelf-packing atlas of `texture_atlas.h`: two 1024x1024
 * textures, one for color glyphs and one for monochrome glyphs, each
 * filled left to right by an integer cursor that wraps to a new row when a
 * glyph would cross the right edge. The texture upload and the normalised
 * (floating-point) coordinates it returns are not modelled; an Add returns
 * the pixel rectangle the glyph was placed at.
 */
module ShelfAtlas {
  import opened Wrappers

  /** `kTextureWidth` and `kTextureHeight`. */
  const TEXTURE_WIDTH: int := 1024
  const TEXTURE_HEIGHT: int := 1024

  /** An `(xoffset, yoffset)` pair: where the next glyph goes. */
  datatype Cursor = Cursor(x: int, y: int)

  /** The pixel rectangle a glyph was uploaded to. */
  datatype Placement = Placement(x: int, y: int, width: int, height: int)

  /** The two independent cursors of the atlas. */
  datatype Shelves = Shelves(colored: Cursor, monochromatic: Cursor)

  /** The assertion that the cursor lies inside the texture failed. */
  datatype ShelfError = CursorOutside(x: int, y: int)

  const Empty := Shelves(Cursor(0, 0), Cursor(0, 0))

  /**
   * The shared logic of `AddColored` and `AddMonochromatic`: the cursor must
   * lie inside the texture; if the glyph would cross the right edge the
   * cursor moves to the start of a row twice the glyph's height lower; the
   * glyph is placed at the cursor, which then moves right by its width.
   */
  function Place(c: Cursor, width: int, height: int): (r: Result<(Cursor, Placement), ShelfError>)
    ensures r.Success? <==> c.x < TEXTURE_WIDTH && c.y < TEXTURE_HEIGHT
    ensures r.Success? ==>
      var (next, p) := r.value;
      && p.width == width && p.height == height
      && (if c.x + width > TEXTURE_WIDTH then p.x == 0 && p.y == c.y + 2 * height else p.x == c.x && p.y == c.y)
      && next == Cursor(p.x + width, p.y)
  {
    if !(c.x < TEXTURE_WIDTH && c.y < TEXTURE_HEIGHT) then Failure(CursorOutside(c.x, c.y))
    else
      var wraps := c.x + width > TEXTURE_WIDTH;
      var x := if wraps then 0 else c.x;
      var y := if wraps then c.y + 2 * height else c.y;
      Success((Cursor(x + width, y), Placement(x, y, width, height)))
  }

  /** `AddColored`: places on the color texture; the monochrome cursor is untouched. */
  function AddColored(s: Shelves, width: int, height: int): (r: Result<(Shelves, Placement), ShelfError>)
    ensures r.Success? <==> Place(s.colored, width, height).Success?
    ensures r.Success? ==>
      && r.value.0.monochromatic == s.monochromatic
      && (r.value.0.colored, r.value.1) == Place(s.colored, width, height).value
  {
    match Place(s.colored, width, height)
    case Failure(e) => Failure(e)
    case Success((c, p)) => Success((s.(colored := c), p))
  }

  /** `AddMonochromatic`: places on the monochrome texture; the color cursor is untouched. */
  function AddMonochromatic(s: Shelves, width: int, height: int): (r: Result<(Shelves, Placement), ShelfError>)
    ensures r.Success? <==> Place(s.monochromatic, width, height).Success?
    ensures r.Success? ==>
      && r.value.0.colored == s.colored
      && (r.value.0.monochromatic, r.value.1) == Place(s.monochromatic, width, height).value
  {
    match Place(s.monochromatic, width, height)
    case Failure(e) => Failure(e)
    case Success((c, p)) => Success((s.(monochromatic := c), p))
  }

  /**
   * The two cursors are independent: a color glyph and a monochrome glyph
   * are placed at the same rectangles whichever is added first, and the
   * final cursors agree.
   */
  lemma AddsCommute(s: Shelves, cw: int, ch: int, mw: int, mh: int)
    requires AddColored(s, cw, ch).Success? && AddMonochromatic(s, mw, mh).Success?
    ensures var (s1, p) := AddColored(s, cw, ch).value;
      var (s2, q) := AddMonochromatic(s, mw, mh).value;
      && AddMonochromatic(s1, mw, mh) == Success((Shelves(s1.colored, s2.monochromatic), q))
      && AddColored(s2, cw, ch) == Success((Shelves(s1.colored, s2.monochromatic), p))
  {
  }

  predicate InsideHorizontally(p: Placement)
  {
    0 <= p.x && p.x + p.width <= TEXTURE_WIDTH
  }

  predicate Inside(p: Placement)
  {
    InsideHorizontally(p) && 0 <= p.y && p.y + p.height <= TEXTURE_HEIGHT
  }

  /**
   * A glyph no wider than the texture, placed from a cursor in the
   * texture, lies within the texture's width. Nothing bounds it vertically.
   */
  lemma PlaceInsideHorizontally(c: Cursor, width: int, height: int)
    requires 0 <= c.x && 0 <= width <= TEXTURE_WIDTH
    requires Place(c, width, height).Success?
    ensures InsideHorizontally(Place(c, width, height).value.1)
  {
  }

  /**
   * Nothing checks the row after a wrap: from the cursor (1000, 1000) a
   * 100x10 glyph wraps to row 1020 and ends at 1030, below the texture; a
   * glyph wider than the texture is placed anyway.
   */
  lemma PlacementCanLeaveTexture()
    ensures Place(Cursor(1000, 1000), 100, 10) == Success((Cursor(100, 1020), Placement(0, 1020, 100, 10)))
    ensures !Inside(Place(Cursor(1000, 1000), 100, 10).value.1)
    ensures !Inside(Place(Cursor(0, 0), 2000, 10).value.1)
  {
  }

  /** Two placements do not share a pixel. */
  predicate Disjoint(p: Placement, q: Placement)
  {
    p.x + p.width <= q.x || q.x + q.width <= p.x || p.y + p.height <= q.y || q.y + q.height <= p.y
  }

  /** Placing glyphs of the given widths, all of height `height`, one after the other. */
  function PlaceRun(c: Cursor, widths: seq<int>, height: int): (r: Result<(Cursor, seq<Placement>), ShelfError>)
    ensures r.Success? ==> |r.value.1| == |widths|
    ensures r.Success? ==> forall k :: 0 <= k < |widths| ==> r.value.1[k].width == widths[k] && r.value.1[k].height == height
    decreases |widths|
  {
    if |widths| == 0 then Success((c, []))
    else match Place(c, widths[0], height)
      case Failure(e) => Failure(e)
      case Success((c1, p)) =>
        match PlaceRun(c1, widths[1..], height)
        case Failure(e) => Failure(e)
        case Success((c2, ps)) => Success((c2, [p] + ps))
  }

  /**
   * The shelf invariant for glyphs of one height: every placement is on an
   * earlier row, or on the cursor's row left of the cursor, and no two
   * placements overlap.
   */
  predicate Shelved(c: Cursor, ps: seq<Placement>, height: int)
  {
    && (forall k :: 0 <= k < |ps| ==>
         ps[k].height == height && (ps[k].y + height <= c.y || (ps[k].y == c.y && ps[k].x + ps[k].width <= c.x)))
    && (forall k, l :: 0 <= k < l < |ps| ==> Disjoint(ps[k], ps[l]))
  }

  /** One placement of a glyph of the shared height keeps the shelf invariant. */
  lemma PlaceKeepsShelved(c: Cursor, ps: seq<Placement>, width: int, height: int)
    requires 0 <= width && 0 <= height && Shelved(c, ps, height)
    requires Place(c, width, height).Success?
    ensures var (c1, p) := Place(c, width, height).value;
      Shelved(c1, ps + [p], height)
  {
    var (c1, p) := Place(c, width, height).value;
    var qs := ps + [p];
    forall k | 0 <= k < |ps| ensures Disjoint(ps[k], p) {
    }
    forall k, l | 0 <= k < l < |qs| ensures Disjoint(qs[k], qs[l]) {
      if l == |ps| {
        assert qs[k] == ps[k] && qs[l] == p;
      } else {
        assert qs[k] == ps[k] && qs[l] == ps[l];
      }
    }
  }

  /**
   * Glyphs of one height, each of non-negative width, never overlap: the
   * wrap moves down by twice the height, past every glyph of the row.
   */
  lemma {:induction false} PlaceRunDisjoint(c: Cursor, done: seq<Placement>, widths: seq<int>, height: int)
    requires 0 <= height && forall k :: 0 <= k < |widths| ==> 0 <= widths[k]
    requires Shelved(c, done, height)
    requires PlaceRun(c, widths, height).Success?
    ensures var (c2, ps) := PlaceRun(c, widths, height).value;
      Shelved(c2, done + ps, height)
    decreases |widths|
  {
    if |widths| > 0 {
      var (c1, p) := Place(c, widths[0], height).value;
      PlaceKeepsShelved(c, done, widths[0], height);
      var rest := widths[1..];
      assert forall k :: 0 <= k < |rest| ==> 0 <= rest[k] by {
        forall k | 0 <= k < |rest| ensures 0 <= rest[k] {
          assert rest[k] == widths[k + 1];
        }
      }
      assert PlaceRun(c1, rest, height).Success?;
      PlaceRunDisjoint(c1, done + [p], rest, height);
      var (c2, ps) := PlaceRun(c1, rest, height).value;
      assert PlaceRun(c, widths, height).value == (c2, [p] + ps);
      assert done + [p] + ps == done + ([p] + ps);
    }
  }

  /**
   * Glyphs of different heights can overlap: a 100-pixel-tall glyph fills
   * the first row, and a 10-pixel glyph that wraps lands only 20 pixels
   * lower, inside it.
   */
  lemma MixedHeightsOverlap()
    ensures PlaceRun(Cursor(0, 0), [1000], 100).Success?
    ensures var (c, ps) := PlaceRun(Cursor(0, 0), [1000], 100).value;
      && Place(c, 100, 10).Success?
      && !Disjoint(ps[0], Place(c, 100, 10).value.1)
  {
    assert PlaceRun(Cursor(1000, 0), [], 100) == Success((Cursor(1000, 0), []));
  }
}
