/** The stepping of `Display.draw_line` (TexUI.py:271-301): Bresenham's line
    algorithm with the source's early stop once the pen has left the display on
    the right or at the bottom, and the cycled character pattern. */
module Bresenham {
  import opened DatatypeExtend
  import opened Grid

  function Abs(n: int): nat {
    if n < 0 then -n else n
  }

  /** The requested line from (x1, y1) to (x2, y2). */
  datatype Segment = Segment(x1: int, y1: int, x2: int, y2: int) {
    function Dx(): nat { Abs(x2 - x1) }
    function Dy(): nat { Abs(y2 - y1) }
    function Sx(): int { if x1 < x2 then 1 else -1 }
    function Sy(): int { if y1 < y2 then 1 else -1 }
  }

  /** The loop variables `x1`, `y1` and `err` of the source. */
  datatype Pen = Pen(x: int, y: int, err: int)

  function Start(s: Segment): Pen {
    Pen(s.x1, s.y1, s.Dx() - s.Dy())
  }

  /** One step: `e2 = 2*err`, then a horizontal and/or a vertical move. */
  function Advance(s: Segment, p: Pen): Pen {
    var dx: int, dy: int := s.Dx(), s.Dy();
    var e2 := 2 * p.err;
    var x := if e2 > -dy then p.x + s.Sx() else p.x;
    var err1 := if e2 > -dy then p.err - dy else p.err;
    var y := if e2 < dx then p.y + s.Sy() else p.y;
    var err2 := if e2 < dx then err1 + dx else err1;
    Pen(x, y, err2)
  }

  /** The loop's exit test, taken after the current cell is drawn: the end
      point is reached, or `x1 + 1 > width` or `y1 + 1 > height`. */
  predicate Stops(s: Segment, p: Pen, w: int, h: int) {
    (p.x == s.x2 && p.y == s.y2) || p.x + 1 > w || p.y + 1 > h
  }

  /** Horizontal and vertical moves made so far, read off the pen position. */
  function StepsX(s: Segment, x: int): int {
    if s.x1 < s.x2 then x - s.x1 else s.x1 - x
  }

  function StepsY(s: Segment, y: int): int {
    if s.y1 < s.y2 then y - s.y1 else s.y1 - y
  }

  /** `a * b` as repeated addition. The stepping invariant is stated with it
      so that the lemmas about the pen stay in linear arithmetic. */
  function Times(a: nat, b: int): int {
    if a == 0 then 0 else b + Times(a - 1, b)
  }

  lemma {:induction false} TimesIsMul(a: nat, b: int)
    ensures Times(a, b) == a * b
  {
    if a > 0 {
      TimesIsMul(a - 1, b);
    }
  }

  lemma {:induction false} TimesSucc(a: nat, b: int)
    ensures Times(a, b + 1) == Times(a, b) + a
  {
    if a > 0 {
      TimesSucc(a - 1, b);
    }
  }

  /** Invariant of the stepping: i horizontal and j vertical moves made, never
      past the end point, and `err == dx*(1+j) - dy*(1+i)`. */
  ghost predicate OnTrack(s: Segment, p: Pen) {
    var i := StepsX(s, p.x);
    var j := StepsY(s, p.y);
    0 <= i <= s.Dx() && 0 <= j <= s.Dy() && p.err == Times(s.Dx(), 1 + j) - Times(s.Dy(), 1 + i)
  }

  ghost function Remaining(s: Segment, p: Pen): nat
    requires OnTrack(s, p)
  {
    (s.Dx() - StepsX(s, p.x)) + (s.Dy() - StepsY(s, p.y))
  }

  lemma MulMono(a: nat, b: int, c: int)
    requires b <= c
    ensures a * b <= a * c
  {
    assert a * c - a * b == a * (c - b);
  }

  lemma StartOnTrack(s: Segment)
    ensures OnTrack(s, Start(s))
  {
    TimesIsMul(s.Dx(), 1);
    TimesIsMul(s.Dy(), 1);
  }

  /** The error term decides the moves: some move is always made before the
      end point, and never one past it. */
  lemma StepArith(dx: nat, dy: nat, i: int, j: int, err: int)
    requires 0 <= i <= dx && 0 <= j <= dy && !(i == dx && j == dy)
    requires err == Times(dx, 1 + j) - Times(dy, 1 + i)
    ensures 2 * err > -(dy as int) || 2 * err < dx
    ensures 2 * err > -(dy as int) ==> i < dx
    ensures 2 * err < dx ==> j < dy
  {
    TimesIsMul(dx, 1 + j);
    TimesIsMul(dy, 1 + i);
    if i == dx {
      MulMono(dx, 1 + j, dy);
      assert dy * (1 + i) == dy + dy * dx;
    }
    if j == dy {
      MulMono(dy, 1 + i, dx);
      assert dx * (1 + j) == dx + dx * dy;
    }
  }

  /** A step keeps the invariant and brings the pen strictly closer to the end
      point, so `draw_line` terminates. */
  lemma AdvanceOnTrack(s: Segment, p: Pen)
    requires OnTrack(s, p)
    requires !(p.x == s.x2 && p.y == s.y2)
    ensures OnTrack(s, Advance(s, p))
    ensures Remaining(s, Advance(s, p)) < Remaining(s, p)
  {
    var i := StepsX(s, p.x);
    var j := StepsY(s, p.y);
    var dx, dy := s.Dx(), s.Dy();
    assert p.x == s.x2 <==> i == dx;
    assert p.y == s.y2 <==> j == dy;
    StepArith(dx, dy, i, j, p.err);
    TimesSucc(dx, 1 + j);
    TimesSucc(dy, 1 + i);
  }

  /** The cells the pen visits from `p` on, in order, up to and including the
      one at which the loop exits. */
  ghost function Trace(s: Segment, p: Pen, w: int, h: int): (t: seq<Position>)
    requires OnTrack(s, p)
    ensures |t| >= 1 && t[0] == Position(p.x, p.y)
    decreases Remaining(s, p)
  {
    if Stops(s, p, w, h) then [Position(p.x, p.y)]
    else
      AdvanceOnTrack(s, p);
      [Position(p.x, p.y)] + Trace(s, Advance(s, p), w, h)
  }

  /** The cells `draw_line(x1, y1, x2, y2, ...)` visits on a w-by-h display. */
  ghost function LinePoints(s: Segment, w: int, h: int): seq<Position> {
    StartOnTrack(s);
    Trace(s, Start(s), w, h)
  }

  /** One iteration's write: skipped when off the display (get_char raises
      and the error is swallowed) or when the restrict gate refuses. */
  function PaintPoint(g: Grid, w: int, h: int, p: Position, c: char, restrict: string): (r: Grid)
    requires IsGrid(g, w, h)
    ensures IsGrid(r, w, h)
  {
    if IsValidPosition(p, (w, h)) && MayWrite(g, p.x, p.y, restrict) then SetCell(g, p.x, p.y, c) else g
  }

  /** The writes of the loop from step `c` on: point k gets `pattern[(c + k) % |pattern|]`. */
  ghost function PaintLine(g: Grid, w: int, h: int, pts: seq<Position>, pattern: string, restrict: string, c: nat): (r: Grid)
    requires IsGrid(g, w, h) && |pattern| > 0
    ensures IsGrid(r, w, h)
    decreases |pts|
  {
    if pts == [] then g
    else PaintLine(PaintPoint(g, w, h, pts[0], pattern[c % |pattern|], restrict), w, h, pts[1..], pattern, restrict, c + 1)
  }

  // ---------------------------------------------------------------------------
  // Properties of the visited cells

  predicate Between(a: int, v: int, b: int) {
    (a <= v <= b) || (b <= v <= a)
  }

  ghost function Progress(s: Segment, q: Position): int {
    StepsX(s, q.x) + StepsY(s, q.y)
  }

  /** A pen on track is inside the rectangle spanned by the end points. */
  lemma OnTrackInBox(s: Segment, p: Pen)
    requires OnTrack(s, p)
    ensures Between(s.x1, p.x, s.x2) && Between(s.y1, p.y, s.y2)
  {
  }

  /** Unfolds one step of `Trace`. */
  lemma TraceStep(s: Segment, p: Pen, w: int, h: int)
    requires OnTrack(s, p) && !Stops(s, p, w, h)
    ensures OnTrack(s, Advance(s, p))
    ensures Trace(s, p, w, h) == [Position(p.x, p.y)] + Trace(s, Advance(s, p), w, h)
  {
    AdvanceOnTrack(s, p);
  }

  /** One iteration of the drawing loop: paint the pen's cell, then stop or
      advance; what is left to paint shrinks accordingly. */
  lemma PaintTraceStep(g: Grid, w: int, h: int, s: Segment, p: Pen, pattern: string, restrict: string, c: nat)
    requires IsGrid(g, w, h) && |pattern| > 0 && OnTrack(s, p)
    ensures var g1 := PaintPoint(g, w, h, Position(p.x, p.y), pattern[c % |pattern|], restrict);
      && (Stops(s, p, w, h) ==> PaintLine(g, w, h, Trace(s, p, w, h), pattern, restrict, c) == g1)
      && (!Stops(s, p, w, h) ==>
            && OnTrack(s, Advance(s, p)) && Remaining(s, Advance(s, p)) < Remaining(s, p)
            && PaintLine(g, w, h, Trace(s, p, w, h), pattern, restrict, c)
               == PaintLine(g1, w, h, Trace(s, Advance(s, p), w, h), pattern, restrict, c + 1))
  {
    var t := Trace(s, p, w, h);
    if !Stops(s, p, w, h) {
      TraceStep(s, p, w, h);
      AdvanceOnTrack(s, p);
      assert t[1..] == Trace(s, Advance(s, p), w, h);
    }
  }

  /** Every visited cell lies in the rectangle spanned by the end points. */
  lemma {:induction false} TraceInBox(s: Segment, p: Pen, w: int, h: int)
    requires OnTrack(s, p)
    ensures var t := Trace(s, p, w, h);
      forall k :: 0 <= k < |t| ==> Between(s.x1, t[k].x, s.x2) && Between(s.y1, t[k].y, s.y2)
    decreases Remaining(s, p)
  {
    OnTrackInBox(s, p);
    if !Stops(s, p, w, h) {
      TraceStep(s, p, w, h);
      AdvanceOnTrack(s, p);
      TraceInBox(s, Advance(s, p), w, h);
      var t := Trace(s, p, w, h);
      var t' := Trace(s, Advance(s, p), w, h);
      forall k | 1 <= k < |t| ensures Between(s.x1, t[k].x, s.x2) && Between(s.y1, t[k].y, s.y2) {
        assert t[k] == t'[k - 1];
      }
    }
  }

  /** `b` is `a` or one of its eight neighbours. */
  predicate Adjacent(a: Position, b: Position) {
    Abs(b.x - a.x) <= 1 && Abs(b.y - a.y) <= 1
  }

  /** A step moves the pen by at most one cell in each direction. */
  lemma AdvanceAdjacent(s: Segment, p: Pen)
    ensures Adjacent(Position(p.x, p.y), Position(Advance(s, p).x, Advance(s, p).y))
  {
  }

  /** Consecutive visited cells are 8-neighbours. */
  lemma {:induction false} TraceConnected(s: Segment, p: Pen, w: int, h: int)
    requires OnTrack(s, p)
    ensures var t := Trace(s, p, w, h);
      forall k :: 0 <= k < |t| - 1 ==> Adjacent(t[k], t[k + 1])
    decreases Remaining(s, p)
  {
    if !Stops(s, p, w, h) {
      TraceStep(s, p, w, h);
      AdvanceOnTrack(s, p);
      TraceConnected(s, Advance(s, p), w, h);
      var t := Trace(s, p, w, h);
      var t' := Trace(s, Advance(s, p), w, h);
      forall k | 0 <= k < |t| - 1 ensures Adjacent(t[k], t[k + 1]) {
        if k > 0 {
          assert t[k] == t'[k - 1] && t[k + 1] == t'[k];
        } else {
          assert t[1] == t'[0];
          AdvanceAdjacent(s, p);
        }
      }
    }
  }

  /** Each visited cell is strictly further along than every earlier one. */
  lemma {:induction false} TraceProgress(s: Segment, p: Pen, w: int, h: int)
    requires OnTrack(s, p)
    ensures var t := Trace(s, p, w, h);
      && (forall k :: 0 <= k < |t| ==> Progress(s, t[k]) >= Progress(s, t[0]))
      && (forall a, b :: 0 <= a < b < |t| ==> Progress(s, t[a]) < Progress(s, t[b]))
    decreases Remaining(s, p)
  {
    if !Stops(s, p, w, h) {
      TraceStep(s, p, w, h);
      AdvanceOnTrack(s, p);
      TraceProgress(s, Advance(s, p), w, h);
      var t := Trace(s, p, w, h);
      var t' := Trace(s, Advance(s, p), w, h);
      assert Progress(s, t'[0]) > Progress(s, t[0]);
      forall k | 1 <= k < |t| ensures Progress(s, t[k]) > Progress(s, t[0]) {
        assert t[k] == t'[k - 1];
      }
      forall a, b | 0 <= a < b < |t| ensures Progress(s, t[a]) < Progress(s, t[b]) {
        if a > 0 {
          assert t[a] == t'[a - 1] && t[b] == t'[b - 1];
        }
      }
    }
  }

  /** The loop ends on the end point unless the pen left the display on the
      right or at the bottom first; no earlier cell is past those edges. */
  lemma {:induction false} TraceEnd(s: Segment, p: Pen, w: int, h: int)
    requires OnTrack(s, p)
    ensures var t := Trace(s, p, w, h);
      var last := t[|t| - 1];
      (last.x == s.x2 && last.y == s.y2) || last.x >= w || last.y >= h
    ensures var t := Trace(s, p, w, h);
      forall k :: 0 <= k < |t| - 1 ==> t[k].x < w && t[k].y < h
    decreases Remaining(s, p)
  {
    if !Stops(s, p, w, h) {
      AdvanceOnTrack(s, p);
      TraceStep(s, p, w, h);
      TraceEnd(s, Advance(s, p), w, h);
      ConsKeepsEnd(Position(p.x, p.y), Trace(s, Advance(s, p), w, h), s, w, h);
    }
  }

  /** Putting a cell on the display in front of a walk that ends properly
      gives a walk that ends properly. */
  lemma ConsKeepsEnd(a: Position, t: seq<Position>, s: Segment, w: int, h: int)
    requires |t| >= 1 && a.x < w && a.y < h
    requires var last := t[|t| - 1]; (last.x == s.x2 && last.y == s.y2) || last.x >= w || last.y >= h
    requires forall k :: 0 <= k < |t| - 1 ==> t[k].x < w && t[k].y < h
    ensures var u := [a] + t; var last := u[|u| - 1];
      (last.x == s.x2 && last.y == s.y2) || last.x >= w || last.y >= h
    ensures var u := [a] + t; forall k :: 0 <= k < |u| - 1 ==> u[k].x < w && u[k].y < h
  {
    var u := [a] + t;
    assert u[|u| - 1] == t[|t| - 1];
    forall k | 0 <= k < |u| - 1 ensures u[k].x < w && u[k].y < h {
      if k > 0 {
        assert u[k] == t[k - 1];
      }
    }
  }

  ghost predicate Distinct(pts: seq<Position>) {
    forall i, j :: 0 <= i < j < |pts| ==> pts[i] != pts[j]
  }

  /** No cell is visited twice. */
  lemma TraceDistinct(s: Segment, p: Pen, w: int, h: int)
    requires OnTrack(s, p)
    ensures Distinct(Trace(s, p, w, h))
  {
    TraceProgress(s, p, w, h);
  }

  /** Without a restrict string, the k-th visited cell that lies on the display
      holds `pattern[(c + k) % |pattern|]` afterwards, and every cell not
      visited is unchanged. */
  lemma {:induction false} PaintLineCells(g: Grid, w: int, h: int, pts: seq<Position>, pattern: string, c: nat, q: Position)
    requires IsGrid(g, w, h) && |pattern| > 0 && Distinct(pts) && IsValidPosition(q, (w, h))
    ensures var r := PaintLine(g, w, h, pts, pattern, [], c);
      && (forall k :: 0 <= k < |pts| && pts[k] == q ==> r[q.y][q.x] == pattern[(c + k) % |pattern|])
      && (q !in pts ==> r[q.y][q.x] == g[q.y][q.x])
    decreases |pts|
  {
    if pts != [] {
      var g1 := PaintPoint(g, w, h, pts[0], pattern[c % |pattern|], []);
      PaintLineCells(g1, w, h, pts[1..], pattern, c + 1, q);
      forall k | 0 < k < |pts| && pts[k] == q
        ensures PaintLine(g, w, h, pts, pattern, [], c)[q.y][q.x] == pattern[(c + k) % |pattern|]
      {
        assert pts[1..][k - 1] == q;
        assert c + 1 + (k - 1) == c + k;
      }
      if pts[0] == q {
        assert q !in pts[1..] by {
          forall k | 0 <= k < |pts[1..]| ensures pts[1..][k] != q {
            assert pts[1..][k] == pts[k + 1];
          }
        }
      }
    }
  }

  /** With any restrict string, cells the line does not visit keep their value. */
  lemma {:induction false} PaintLineFrame(g: Grid, w: int, h: int, pts: seq<Position>, pattern: string, restrict: string, c: nat, q: Position)
    requires IsGrid(g, w, h) && |pattern| > 0 && IsValidPosition(q, (w, h)) && q !in pts
    ensures PaintLine(g, w, h, pts, pattern, restrict, c)[q.y][q.x] == g[q.y][q.x]
    decreases |pts|
  {
    if pts != [] {
      var g1 := PaintPoint(g, w, h, pts[0], pattern[c % |pattern|], restrict);
      assert q !in pts[1..];
      PaintLineFrame(g1, w, h, pts[1..], pattern, restrict, c + 1, q);
    }
  }

  /** A horizontal line inside the display visits x1, x1+1, ..., x2 of its row. */
  lemma {:induction false} HorizontalTrace(s: Segment, x: int, w: int, h: int)
    requires s.y1 == s.y2 && s.x1 <= x <= s.x2 < w && 0 <= s.y1 < h
    ensures OnTrack(s, Pen(x, s.y1, s.Dx()))
    ensures Trace(s, Pen(x, s.y1, s.Dx()), w, h) == seq(s.x2 - x + 1, k => Position(x + k, s.y1))
    decreases s.x2 - x
  {
    TimesIsMul(s.Dx(), 1);
    if x < s.x2 {
      HorizontalTrace(s, x + 1, w, h);
      assert Advance(s, Pen(x, s.y1, s.Dx())) == Pen(x + 1, s.y1, s.Dx());
    }
  }

  /** `draw_line(x1, y, x2, y, c)` with one character and no restrict string
      on a display that holds the whole segment: exactly the cells x1..x2 of
      row y become `c`. */
  lemma HorizontalLine(g: Grid, w: int, h: int, x1: int, x2: int, y: int, c: char)
    requires IsGrid(g, w, h) && 0 <= x1 <= x2 < w && 0 <= y < h
    ensures var r := PaintLine(g, w, h, LinePoints(Segment(x1, y, x2, y), w, h), [c], [], 0);
      forall row, col :: 0 <= row < h && 0 <= col < w ==>
        r[row][col] == if row == y && x1 <= col <= x2 then c else g[row][col]
  {
    var s := Segment(x1, y, x2, y);
    HorizontalTrace(s, x1, w, h);
    assert Start(s) == Pen(x1, y, s.Dx());
    var pts := LinePoints(s, w, h);
    TraceDistinct(s, Start(s), w, h);
    forall row, col | 0 <= row < h && 0 <= col < w
      ensures PaintLine(g, w, h, pts, [c], [], 0)[row][col] == if row == y && x1 <= col <= x2 then c else g[row][col]
    {
      var q := Position(col, row);
      PaintLineCells(g, w, h, pts, [c], 0, q);
      if row == y && x1 <= col <= x2 {
        assert pts[col - x1] == q;
      } else {
        assert q !in pts;
      }
    }
  }
  /** A vertical line inside the display visits y1, y1+1, ..., y2 of its column. */
  lemma {:induction false} VerticalTrace(s: Segment, y: int, w: int, h: int)
    requires s.x1 == s.x2 && s.y1 <= y <= s.y2 < h && 0 <= s.x1 < w
    ensures OnTrack(s, Pen(s.x1, y, -(s.Dy() as int)))
    ensures Trace(s, Pen(s.x1, y, -(s.Dy() as int)), w, h) == seq(s.y2 - y + 1, k => Position(s.x1, y + k))
    decreases s.y2 - y
  {
    TimesIsMul(s.Dy(), 1);
    if y < s.y2 {
      VerticalTrace(s, y + 1, w, h);
      assert Advance(s, Pen(s.x1, y, -(s.Dy() as int))) == Pen(s.x1, y + 1, -(s.Dy() as int));
    }
  }

  /** `draw_line(x, y1, x, y2, c)` with one character and no restrict string
      on a display that holds the whole segment: exactly the cells y1..y2 of
      column x become `c`. */
  lemma VerticalLine(g: Grid, w: int, h: int, x: int, y1: int, y2: int, c: char)
    requires IsGrid(g, w, h) && 0 <= x < w && 0 <= y1 <= y2 < h
    ensures var r := PaintLine(g, w, h, LinePoints(Segment(x, y1, x, y2), w, h), [c], [], 0);
      forall row, col :: 0 <= row < h && 0 <= col < w ==>
        r[row][col] == if col == x && y1 <= row <= y2 then c else g[row][col]
  {
    var s := Segment(x, y1, x, y2);
    VerticalTrace(s, y1, w, h);
    assert Start(s) == Pen(x, y1, -(s.Dy() as int));
    var pts := LinePoints(s, w, h);
    TraceDistinct(s, Start(s), w, h);
    forall row, col | 0 <= row < h && 0 <= col < w
      ensures PaintLine(g, w, h, pts, [c], [], 0)[row][col] == if col == x && y1 <= row <= y2 then c else g[row][col]
    {
      var q := Position(col, row);
      PaintLineCells(g, w, h, pts, [c], 0, q);
      if col == x && y1 <= row <= y2 {
        assert pts[row - y1] == q;
      } else {
        assert q !in pts;
      }
    }
  }
}
