/**
 * Drawing a glyph: the 16 rows of 8 bits are unpacked into a pixel cache once,
 * and every vertical run of lit pixels is then drawn as one filled rectangle at
 * twice the size.
 */
module Glyphs {
  const ROWS := 16
  const COLS := 8
  const SCALE := 2

  /** The bit of a glyph for a pixel; the leftmost column is the highest bit. */
  predicate Lit(bitmap: seq<bv8>, row: int, col: int)
    requires |bitmap| == ROWS
  {
    && 0 <= row < ROWS
    && 0 <= col < COLS
    && bitmap[row] & (1 << ((7 - col) as bv4)) != 0
  }

  method PrecomputeGlyph(bitmap: seq<bv8>, pixels: array2<bool>)
    requires |bitmap| == ROWS && pixels.Length0 == ROWS && pixels.Length1 == COLS
    modifies pixels
    ensures forall r, c :: 0 <= r < ROWS && 0 <= c < COLS ==> (pixels[r, c] <==> Lit(bitmap, r, c))
  {
    hide Lit;
    for row := 0 to ROWS
      invariant forall r, c :: 0 <= r < row && 0 <= c < COLS ==> (pixels[r, c] <==> Lit(bitmap, r, c))
    {
      var bits := bitmap[row];
      for col := 0 to COLS
        invariant forall r, c :: 0 <= r < row && 0 <= c < COLS ==> (pixels[r, c] <==> Lit(bitmap, r, c))
        invariant forall c :: 0 <= c < col ==> (pixels[row, c] <==> Lit(bitmap, row, c))
      {
        BitOf(bitmap, row, col);
        pixels[row, col] := bits & (1 << ((7 - col) as bv4)) != 0;
      }
    }
  }

  lemma BitOf(bitmap: seq<bv8>, row: int, col: int)
    requires |bitmap| == ROWS && 0 <= row < ROWS && 0 <= col < COLS
    ensures Lit(bitmap, row, col) <==> bitmap[row] & (1 << ((7 - col) as bv4)) != 0
  {
  }

  /** The picture is not mirrored: the first column is the highest bit and the last one the lowest. */
  lemma OuterColumns(bitmap: seq<bv8>, row: int)
    requires |bitmap| == ROWS && 0 <= row < ROWS
    ensures Lit(bitmap, row, 0) <==> bitmap[row] >= 0x80
    ensures Lit(bitmap, row, 7) <==> bitmap[row] & 1 == 1
  {
  }

  /** A vertical stretch of pixels: rows lo..hi-1 of a column. */
  datatype Span = Span(col: int, lo: int, hi: int)

  /** A filled rectangle with its corners included. */
  datatype Rect = Rect(x1: int, y1: int, x2: int, y2: int)

  /** The stretch is lit and cannot be made longer. */
  predicate IsRun(bitmap: seq<bv8>, s: Span)
    requires |bitmap| == ROWS
  {
    && 0 <= s.col < COLS && 0 <= s.lo < s.hi <= ROWS
    && (forall r :: s.lo <= r < s.hi ==> Lit(bitmap, r, s.col))
    && !Lit(bitmap, s.lo - 1, s.col)
    && !Lit(bitmap, s.hi, s.col)
  }

  predicate Before(s: Span, t: Span) { s.col < t.col || (s.col == t.col && s.hi < t.lo) }

  predicate Ordered(spans: seq<Span>) {
    forall i, j :: 0 <= i < j < |spans| ==> Before(spans[i], spans[j])
  }

  predicate Holds(s: Span, row: int, col: int) { s.col == col && s.lo <= row < s.hi }

  ghost predicate Covered(spans: seq<Span>, row: int, col: int) {
    exists i :: 0 <= i < |spans| && Holds(spans[i], row, col)
  }

  function ToRect(s: Span, x: int, y: int): Rect {
    Rect(x + s.col * SCALE, y + s.lo * SCALE, x + s.col * SCALE + SCALE - 1, y + (s.hi - 1) * SCALE + SCALE - 1)
  }

  /** A coordinate as the 16-bit variables hold it. */
  function Wrap16(v: int): (w: int)
    ensures 0 <= w < 0x1_0000
    ensures 0 <= v < 0x1_0000 ==> w == v
  {
    v % 0x1_0000
  }

  /** The rectangle of a span as it is handed to the display. */
  function Sent(s: Span, x: int, y: int): Rect {
    var r := ToRect(s, x, y);
    Rect(Wrap16(r.x1), Wrap16(r.y1), Wrap16(r.x2), Wrap16(r.y2))
  }

  /** The glyph lies within the range of the coordinates. */
  predicate InRange(x: int, y: int) {
    0 <= x && x + COLS * SCALE <= 0x1_0000 && 0 <= y && y + ROWS * SCALE <= 0x1_0000
  }

  lemma SentInRange(bitmap: seq<bv8>, s: Span, x: int, y: int)
    requires |bitmap| == ROWS && IsRun(bitmap, s) && InRange(x, y)
    ensures Sent(s, x, y) == ToRect(s, x, y)
  {
    hide Lit;
  }

  predicate Inside(r: Rect, px: int, py: int) { r.x1 <= px <= r.x2 && r.y1 <= py <= r.y2 }

  /** The maximal runs up to (but not including) a position, column by column. */
  ghost predicate RunsUpTo(bitmap: seq<bv8>, spans: seq<Span>, row: int, col: int)
    requires |bitmap| == ROWS
  {
    && (forall i :: 0 <= i < |spans| ==> IsRun(bitmap, spans[i]))
    && Ordered(spans)
    && (forall i :: 0 <= i < |spans| ==> spans[i].col < col || (spans[i].col == col && spans[i].hi <= row))
    && (forall r, c :: Lit(bitmap, r, c) && (c < col || (c == col && r < row)) ==> Covered(spans, r, c))
  }

  lemma CoveredGrows(spans: seq<Span>, s: Span, row: int, col: int)
    requires Covered(spans, row, col) || Holds(s, row, col)
    ensures Covered(spans + [s], row, col)
  {
    if Covered(spans, row, col) {
      var i :| 0 <= i < |spans| && Holds(spans[i], row, col);
      assert Holds((spans + [s])[i], row, col);
    } else {
      assert Holds((spans + [s])[|spans|], row, col);
    }
  }

  lemma AddRun(bitmap: seq<bv8>, spans: seq<Span>, s: Span)
    requires |bitmap| == ROWS && RunsUpTo(bitmap, spans, s.lo, s.col) && IsRun(bitmap, s)
    ensures RunsUpTo(bitmap, spans + [s], s.hi, s.col)
  {
    hide Lit;
    forall i | 0 <= i < |spans| ensures Before(spans[i], s) {
      // a run that ended where s begins would make s longer
      assert IsRun(bitmap, spans[i]) && Lit(bitmap, spans[i].hi - 1, spans[i].col);
    }
    forall r, c | Lit(bitmap, r, c) && (c < s.col || (c == s.col && r < s.hi)) ensures Covered(spans + [s], r, c) {
      CoveredGrows(spans, s, r, c);
    }
  }

  // ----- what is on the screen --------------------------------------------------------------

  ghost predicate Drawn(rects: seq<Rect>, px: int, py: int) {
    exists i :: 0 <= i < |rects| && Inside(rects[i], px, py)
  }

  /** The rectangle of some maximal run. */
  ghost predicate OfRun(bitmap: seq<bv8>, r: Rect, x: int, y: int)
    requires |bitmap| == ROWS
  {
    exists s :: IsRun(bitmap, s) && r == ToRect(s, x, y)
  }

  lemma RunHasRect(bitmap: seq<bv8>, s: Span, x: int, y: int)
    requires |bitmap| == ROWS && IsRun(bitmap, s)
    ensures OfRun(bitmap, ToRect(s, x, y), x, y)
  {
  }

  /** A point of the screen is inside the rectangle of a span exactly if its pixel is in the span. */
  lemma RectHolds(s: Span, x: int, y: int, px: int, py: int)
    requires 0 <= s.col && 0 <= s.lo < s.hi
    ensures Inside(ToRect(s, x, y), px, py) <==> Holds(s, (py - y) / 2, (px - x) / 2)
  {
  }

  /** The points drawn are exactly the lit pixels of the glyph at twice the size. */
  lemma DrawnIsLit(bitmap: seq<bv8>, spans: seq<Span>, x: int, y: int, px: int, py: int)
    requires |bitmap| == ROWS && RunsUpTo(bitmap, spans, 0, COLS)
    ensures (exists i :: 0 <= i < |spans| && Inside(ToRect(spans[i], x, y), px, py)) <==>
            Lit(bitmap, (py - y) / 2, (px - x) / 2)
  {
    var row, col := (py - y) / 2, (px - x) / 2;
    if Lit(bitmap, row, col) {
      assert Covered(spans, row, col);
      var i :| 0 <= i < |spans| && Holds(spans[i], row, col);
      assert IsRun(bitmap, spans[i]);
      RectHolds(spans[i], x, y, px, py);
    }
    forall i | 0 <= i < |spans| && Inside(ToRect(spans[i], x, y), px, py) ensures Lit(bitmap, row, col) {
      assert IsRun(bitmap, spans[i]);
      RectHolds(spans[i], x, y, px, py);
    }
  }

  /** No point is drawn twice. */
  lemma RectsDisjoint(bitmap: seq<bv8>, spans: seq<Span>, x: int, y: int, i: int, j: int, px: int, py: int)
    requires |bitmap| == ROWS && RunsUpTo(bitmap, spans, 0, COLS)
    requires 0 <= i < j < |spans|
    ensures !(Inside(ToRect(spans[i], x, y), px, py) && Inside(ToRect(spans[j], x, y), px, py))
  {
    assert IsRun(bitmap, spans[i]) && IsRun(bitmap, spans[j]) && Before(spans[i], spans[j]);
    RectHolds(spans[i], x, y, px, py);
    RectHolds(spans[j], x, y, px, py);
  }

  /** Every maximal run is among the spans, so there is one rectangle for each. */
  lemma EveryRunDrawn(bitmap: seq<bv8>, spans: seq<Span>, s: Span)
    requires |bitmap| == ROWS && RunsUpTo(bitmap, spans, 0, COLS) && IsRun(bitmap, s)
    ensures s in spans
  {
    hide Lit;
    assert Lit(bitmap, s.lo, s.col);
    assert Covered(spans, s.lo, s.col);
    var i :| 0 <= i < |spans| && Holds(spans[i], s.lo, s.col);
    var t := spans[i];
    assert IsRun(bitmap, t);
    assert t.lo == s.lo && t.hi == s.hi;
  }

  // ----- drawing ------------------------------------------------------------------------------

  /** The finished picture, from the runs found. */
  lemma Picture(bitmap: seq<bv8>, spans: seq<Span>, rects: seq<Rect>, x: int, y: int)
    requires |bitmap| == ROWS && RunsUpTo(bitmap, spans, 0, COLS)
    requires |rects| == |spans| && forall i :: 0 <= i < |rects| ==> rects[i] == ToRect(spans[i], x, y)
    ensures forall px, py :: Drawn(rects, px, py) <==> Lit(bitmap, (py - y) / 2, (px - x) / 2)
    ensures forall i, j, px, py ::
              0 <= i < j < |rects| ==> !(Inside(rects[i], px, py) && Inside(rects[j], px, py))
    ensures forall i :: 0 <= i < |rects| ==> OfRun(bitmap, rects[i], x, y)
    ensures forall s :: IsRun(bitmap, s) ==> ToRect(s, x, y) in rects
  {
    hide Lit, ToRect, Inside, Ordered, OfRun;
    forall px, py ensures Drawn(rects, px, py) <==> Lit(bitmap, (py - y) / 2, (px - x) / 2) {
      DrawnIsLit(bitmap, spans, x, y, px, py);
      if Drawn(rects, px, py) {
        var i :| 0 <= i < |rects| && Inside(rects[i], px, py);
        assert Inside(ToRect(spans[i], x, y), px, py);
      } else {
        assert forall i :: 0 <= i < |spans| ==> !Inside(ToRect(spans[i], x, y), px, py) by {
          forall i | 0 <= i < |spans| ensures !Inside(ToRect(spans[i], x, y), px, py) {
            assert !Inside(rects[i], px, py);
          }
        }
      }
    }
    forall i, j, px, py | 0 <= i < j < |rects|
      ensures !(Inside(rects[i], px, py) && Inside(rects[j], px, py))
    {
      RectsDisjoint(bitmap, spans, x, y, i, j, px, py);
    }
    forall s | IsRun(bitmap, s) ensures ToRect(s, x, y) in rects {
      EveryRunDrawn(bitmap, spans, s);
      var i :| 0 <= i < |spans| && spans[i] == s;
      assert rects[i] == ToRect(s, x, y);
    }
    forall i | 0 <= i < |rects| ensures OfRun(bitmap, rects[i], x, y) {
      RunHasRect(bitmap, spans[i], x, y);
    }
  }

  lemma NewRun(bitmap: seq<bv8>, s: Span)
    requires |bitmap| == ROWS && 0 <= s.col < COLS && 0 <= s.lo < s.hi <= ROWS
    requires forall r :: s.lo <= r < s.hi ==> Lit(bitmap, r, s.col)
    requires !Lit(bitmap, s.lo - 1, s.col) && !Lit(bitmap, s.hi, s.col)
    ensures IsRun(bitmap, s)
  {
  }

  lemma NoRuns(bitmap: seq<bv8>)
    requires |bitmap| == ROWS
    ensures RunsUpTo(bitmap, [], 0, 0)
  {
  }

  /** There is nothing above and below a glyph. */
  lemma OffGlyph(bitmap: seq<bv8>, col: int)
    requires |bitmap| == ROWS
    ensures !Lit(bitmap, -1, col) && !Lit(bitmap, ROWS, col)
  {
  }

  lemma SkipDark(bitmap: seq<bv8>, spans: seq<Span>, row: int, col: int)
    requires |bitmap| == ROWS && RunsUpTo(bitmap, spans, row, col) && !Lit(bitmap, row, col)
    ensures RunsUpTo(bitmap, spans, row + 1, col)
  {
    hide Lit;
  }

  lemma NextColumn(bitmap: seq<bv8>, spans: seq<Span>, col: int)
    requires |bitmap| == ROWS && RunsUpTo(bitmap, spans, ROWS, col)
    ensures RunsUpTo(bitmap, spans, 0, col + 1)
  {
    forall r, c | Lit(bitmap, r, c) && c < col + 1 ensures Covered(spans, r, c) {
      assert r < ROWS;
    }
  }

  /**
   * Draws the glyph at (x, y).  The rectangles are those of the maximal vertical runs, one for each, in
   * 16-bit coordinates.  Where these do not overflow, the rectangles cover exactly the lit pixels at
   * twice the size, and no point twice.
   */
  method BlitGlyph(x: int, y: int, pixels: array2<bool>, ghost bitmap: seq<bv8>)
    returns (rects: seq<Rect>, ghost spans: seq<Span>)
    requires |bitmap| == ROWS && pixels.Length0 == ROWS && pixels.Length1 == COLS
    requires forall r, c :: 0 <= r < ROWS && 0 <= c < COLS ==> (pixels[r, c] <==> Lit(bitmap, r, c))
    requires 0 <= x < 0x1_0000 && 0 <= y < 0x1_0000
    ensures |rects| == |spans| && forall i :: 0 <= i < |rects| ==> rects[i] == Sent(spans[i], x, y)
    ensures Ordered(spans) && forall s :: s in spans <==> IsRun(bitmap, s)
    ensures InRange(x, y) ==> forall px, py :: Drawn(rects, px, py) <==> Lit(bitmap, (py - y) / 2, (px - x) / 2)
    ensures InRange(x, y) ==>
              forall i, j, px, py ::
                0 <= i < j < |rects| ==> !(Inside(rects[i], px, py) && Inside(rects[j], px, py))
    ensures InRange(x, y) ==> forall i :: 0 <= i < |rects| ==> OfRun(bitmap, rects[i], x, y)
    ensures InRange(x, y) ==> forall s :: IsRun(bitmap, s) ==> ToRect(s, x, y) in rects
  {
    hide RunsUpTo, Lit, IsRun, OfRun, Wrap16, Ordered;
    rects, spans := [], [];
    NoRuns(bitmap);
    for col := 0 to COLS
      invariant RunsUpTo(bitmap, spans, 0, col)
      invariant |rects| == |spans| && forall i :: 0 <= i < |rects| ==> rects[i] == Sent(spans[i], x, y)
    {
      var px1 := Wrap16(x + col * SCALE);
      var px2 := Wrap16(px1 + SCALE - 1);
      var row := 0;
      OffGlyph(bitmap, col);
      while row < ROWS
        invariant 0 <= row <= ROWS
        invariant RunsUpTo(bitmap, spans, row, col)
        invariant Lit(bitmap, row, col) ==> !Lit(bitmap, row - 1, col)
        invariant |rects| == |spans| && forall i :: 0 <= i < |rects| ==> rects[i] == Sent(spans[i], x, y)
      {
        if !pixels[row, col] {
          SkipDark(bitmap, spans, row, col);
          row := row + 1;
          continue;
        }
        var start := row;
        while row < ROWS && pixels[row, col]
          invariant start <= row <= ROWS
          invariant forall r :: start <= r < row ==> Lit(bitmap, r, col)
        {
          row := row + 1;
        }
        var py1 := Wrap16(y + start * SCALE);
        var py2 := Wrap16(y + (row - 1) * SCALE + SCALE - 1);
        ghost var s := Span(col, start, row);
        WrapTwice(x + col * SCALE, SCALE - 1);
        NewRun(bitmap, s);
        AddRun(bitmap, spans, s);
        rects, spans := rects + [Rect(px1, py1, px2, py2)], spans + [s];
      }
      NextColumn(bitmap, spans, col);
    }
    Runs(bitmap, spans);
    if InRange(x, y) {
      forall i | 0 <= i < |rects| ensures rects[i] == ToRect(spans[i], x, y) {
        assert spans[i] in spans;
        SentInRange(bitmap, spans[i], x, y);
      }
      Picture(bitmap, spans, rects, x, y);
    }
  }

  lemma WrapTwice(v: int, d: int)
    ensures Wrap16(Wrap16(v) + d) == Wrap16(v + d)
  {
  }

  /** The finished list holds the maximal runs, all of them and nothing else. */
  lemma Runs(bitmap: seq<bv8>, spans: seq<Span>)
    requires |bitmap| == ROWS && RunsUpTo(bitmap, spans, 0, COLS)
    ensures Ordered(spans) && forall s :: s in spans <==> IsRun(bitmap, s)
  {
    hide Lit, Ordered;
    forall s | IsRun(bitmap, s) ensures s in spans {
      EveryRunDrawn(bitmap, spans, s);
    }
  }
}
