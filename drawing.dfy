/** Specifications of the remaining drawing operations of `Display` as
    functions of the grid: `draw_char`, `draw_line`, `draw_box` with its style
    table, `export_display`, `merge_display` and the properties of `fill`. */
module Drawing {
  import opened Errors
  import opened DatatypeExtend
  import opened HelperFunction
  import opened Grid
  import opened Bresenham
  import opened TextLayout
  import opened Placement

  // ---------------------------------------------------------------------------
  // draw_char

  /** `draw_char`: the character check, the restrict string's printability,
      the position (through `get_char`), then the gated write. */
  function DrawCharSpec(g: Grid, w: int, h: int, x: int, y: int, ch: string, restrict: string): (res: (Grid, Outcome))
    requires IsGrid(g, w, h)
    ensures IsGrid(res.0, w, h)
  {
    match CharacterOf(ch)
    case Failure(e) => (g, Fail(e))
    case Success(c) =>
      if restrict != [] && !AllPrintable(restrict) then (g, Fail(InvalidMask))
      else if !IsValidPosition(Position(x, y), (w, h)) then (g, Fail(InvalidPosition))
      else if MayWrite(g, x, y, restrict) then (SetCell(g, x, y, c), Pass)
      else (g, Pass)
  }

  /** `draw_char` changes at most the one cell at (x, y), and only when every
      check passes and the cell is allowed by the restrict string; a refused
      call changes nothing. */
  lemma DrawCharEffect(g: Grid, w: int, h: int, x: int, y: int, ch: string, restrict: string)
    requires IsGrid(g, w, h)
    ensures var (r, out) := DrawCharSpec(g, w, h, x, y, ch, restrict);
      && (forall i, j :: 0 <= i < h && 0 <= j < w && (i != y || j != x) ==> r[i][j] == g[i][j])
      && (out.Fail? ==> r == g)
      && (out.Pass? <==> |ch| == 1 && (restrict == [] || AllPrintable(restrict)) && IsValidPosition(Position(x, y), (w, h)))
      && (out.Pass? ==> r[y][x] == if restrict == [] || g[y][x] in restrict then ch[0] else g[y][x])
  {
  }

  // ---------------------------------------------------------------------------
  // draw_line

  /** `draw_line` with a non-empty pattern: the pattern and restrict strings
      must be printable; then the visited cells are painted in order. */
  ghost function LineSpec(g: Grid, w: int, h: int, s: Segment, pattern: string, restrict: string): (res: (Grid, Outcome))
    requires IsGrid(g, w, h) && |pattern| > 0
    ensures IsGrid(res.0, w, h)
  {
    if !AllPrintable(pattern) then (g, Fail(InvalidPattern))
    else if restrict != [] && !AllPrintable(restrict) then (g, Fail(InvalidMask))
    else (PaintLine(g, w, h, LinePoints(s, w, h), pattern, restrict, 0), Pass)
  }

  /** A line changes only cells in the rectangle spanned by its end points. */
  lemma LineStaysInRect(g: Grid, w: int, h: int, s: Segment, pattern: string, restrict: string)
    requires IsGrid(g, w, h) && |pattern| > 0
    ensures var r := LineSpec(g, w, h, s, pattern, restrict).0;
      forall i, j :: 0 <= i < h && 0 <= j < w && r[i][j] != g[i][j] ==> Between(s.x1, j, s.x2) && Between(s.y1, i, s.y2)
  {
    var r := LineSpec(g, w, h, s, pattern, restrict).0;
    var pts := LinePoints(s, w, h);
    StartOnTrack(s);
    assert pts == Trace(s, Start(s), w, h);
    TraceInBox(s, Start(s), w, h);
    forall i, j | 0 <= i < h && 0 <= j < w && r[i][j] != g[i][j]
      ensures Between(s.x1, j, s.x2) && Between(s.y1, i, s.y2)
    {
      if Position(j, i) !in pts {
        PaintLineFrame(g, w, h, pts, pattern, restrict, 0, Position(j, i));
      } else {
        var k :| 0 <= k < |pts| && pts[k] == Position(j, i);
        assert Between(s.x1, pts[k].x, s.x2) && Between(s.y1, pts[k].y, s.y2);
      }
    }
  }

  /** With a one-character pattern every changed cell holds that character. */
  lemma {:induction false} PaintSingleChar(g: Grid, w: int, h: int, pts: seq<Position>, c: char, restrict: string, k: nat)
    requires IsGrid(g, w, h)
    ensures var r := PaintLine(g, w, h, pts, [c], restrict, k);
      forall i, j :: 0 <= i < h && 0 <= j < w ==> r[i][j] == g[i][j] || r[i][j] == c
    decreases |pts|
  {
    if pts != [] {
      var g1 := PaintPoint(g, w, h, pts[0], [c][k % 1], restrict);
      PaintSingleChar(g1, w, h, pts[1..], c, restrict, k + 1);
    }
  }

  /** Without a restrict string, a line whose start lies on the display
      paints its start cell with the pattern's first character. */
  lemma LineStartPainted(g: Grid, w: int, h: int, s: Segment, c: char)
    requires IsGrid(g, w, h) && IsValidPosition(Position(s.x1, s.y1), (w, h)) && IsPrintable(c)
    ensures LineSpec(g, w, h, s, [c], []).0[s.y1][s.x1] == c
  {
    var pts := LinePoints(s, w, h);
    StartOnTrack(s);
    TraceDistinct(s, Start(s), w, h);
    PaintLineCells(g, w, h, pts, [c], 0, Position(s.x1, s.y1));
    assert pts[0] == Position(s.x1, s.y1);
  }

  // ---------------------------------------------------------------------------
  // draw_box

  /** `style_map`: characters for the four sides and the four corners. */
  datatype StyleMap = StyleMap(top: char, bottom: char, left: char, right: char, tl: char, tr: char, bl: char, br: char)

  /** The style table: 1 character for everything; 2 for horizontal (also
      the corners) and vertical; 3 adds the corners; 4 gives top, bottom,
      left and right (corners from top and bottom); 5 adds one corner
      character; 8 gives all four corners. Other lengths are refused. */
  function StyleMapOf(style: string): (r: Result<StyleMap>)
    ensures r.Success? <==> |style| in {1, 2, 3, 4, 5, 8}
    ensures r.Failure? ==> r.error == InvalidStyle
    ensures r.Success? ==> var m := r.value;
      && m.top in style && m.bottom in style && m.left in style && m.right in style
      && m.tl in style && m.tr in style && m.bl in style && m.br in style
    ensures r.Success? && |style| >= 4 ==> var m := r.value;
      m.top == style[0] && m.bottom == style[1] && m.left == style[2] && m.right == style[3]
    ensures r.Success? && |style| <= 3 ==> var m := r.value;
      m.top == m.bottom == style[0] && m.left == m.right == style[|style| - 1 - (if |style| == 3 then 1 else 0)]
    ensures r.Success? && (|style| == 1 || |style| == 2) ==> var m := r.value;
      m.tl == m.tr == m.bl == m.br == m.top
    ensures r.Success? && (|style| == 3 || |style| == 5) ==> var m := r.value;
      m.tl == m.tr == m.bl == m.br == style[|style| - 1]
    ensures r.Success? && |style| == 4 ==> var m := r.value;
      m.tl == m.tr == m.top && m.bl == m.br == m.bottom
    ensures r.Success? && |style| == 8 ==> var m := r.value;
      m.tl == style[4] && m.tr == style[5] && m.bl == style[6] && m.br == style[7]
  {
    var n := |style|;
    if n == 1 then Success(StyleMap(style[0], style[0], style[0], style[0], style[0], style[0], style[0], style[0]))
    else if n == 2 then Success(StyleMap(style[0], style[0], style[1], style[1], style[0], style[0], style[0], style[0]))
    else if n == 3 then Success(StyleMap(style[0], style[0], style[1], style[1], style[2], style[2], style[2], style[2]))
    else if n == 4 then Success(StyleMap(style[0], style[1], style[2], style[3], style[0], style[0], style[1], style[1]))
    else if n == 5 then Success(StyleMap(style[0], style[1], style[2], style[3], style[4], style[4], style[4], style[4]))
    else if n == 8 then Success(StyleMap(style[0], style[1], style[2], style[3], style[4], style[5], style[6], style[7]))
    else Failure(InvalidStyle)
  }

  /** The four corner writes (TL, BL, TR, BR), each gated by the restrict
      string followed by the style, with any refusal ignored. */
  function Corners(g: Grid, w: int, h: int, corners: seq<(int, int, char)>, gate: string): (r: Grid)
    requires IsGrid(g, w, h)
    ensures IsGrid(r, w, h)
    decreases |corners|
  {
    if corners == [] then g
    else Corners(DrawCharSpec(g, w, h, corners[0].0, corners[0].1, [corners[0].2], gate).0, w, h, corners[1..], gate)
  }

  /** `draw_box`: the style check first; then top, bottom, left and right
      lines (a refused line ends the call, keeping what was drawn); then the
      corners. */
  ghost function BoxSpec(g: Grid, w: int, h: int, x1: int, y1: int, x2: int, y2: int, style: string, restrict: string): (res: (Grid, Outcome))
    requires IsGrid(g, w, h)
    ensures IsGrid(res.0, w, h)
  {
    match StyleMapOf(style)
    case Failure(e) => (g, Fail(e))
    case Success(m) =>
      var top := LineSpec(g, w, h, Segment(x1, y1, x2, y1), [m.top], restrict);
      if top.1.Fail? then top else
      var bottom := LineSpec(top.0, w, h, Segment(x1, y2, x2, y2), [m.bottom], restrict);
      if bottom.1.Fail? then bottom else
      var left := LineSpec(bottom.0, w, h, Segment(x1, y1, x1, y2), [m.left], restrict);
      if left.1.Fail? then left else
      var right := LineSpec(left.0, w, h, Segment(x2, y1, x2, y2), [m.right], restrict);
      if right.1.Fail? then right else
      (Corners(right.0, w, h, [(x1, y1, m.tl), (x1, y2, m.bl), (x2, y1, m.tr), (x2, y2, m.br)], restrict + style), Pass)
  }

  /** A style of the wrong length is refused before anything is drawn. */
  lemma BoxRejectsStyle(g: Grid, w: int, h: int, x1: int, y1: int, x2: int, y2: int, style: string, restrict: string)
    requires IsGrid(g, w, h) && |style| !in {1, 2, 3, 4, 5, 8}
    ensures BoxSpec(g, w, h, x1, y1, x2, y2, style, restrict) == (g, Fail(InvalidStyle))
  {
  }

  predicate OnBorder(x1: int, y1: int, x2: int, y2: int, i: int, j: int) {
    ((i == y1 || i == y2) && Between(x1, j, x2)) || ((j == x1 || j == x2) && Between(y1, i, y2))
  }

  ghost predicate ChangedOnBorder(g: Grid, r: Grid, w: int, h: int, x1: int, y1: int, x2: int, y2: int)
    requires IsGrid(g, w, h) && IsGrid(r, w, h)
  {
    forall i, j :: 0 <= i < h && 0 <= j < w && r[i][j] != g[i][j] ==> OnBorder(x1, y1, x2, y2, i, j)
  }

  lemma BorderTrans(g1: Grid, g2: Grid, g3: Grid, w: int, h: int, x1: int, y1: int, x2: int, y2: int)
    requires IsGrid(g1, w, h) && IsGrid(g2, w, h) && IsGrid(g3, w, h)
    requires ChangedOnBorder(g1, g2, w, h, x1, y1, x2, y2) && ChangedOnBorder(g2, g3, w, h, x1, y1, x2, y2)
    ensures ChangedOnBorder(g1, g3, w, h, x1, y1, x2, y2)
  {
    forall i, j | 0 <= i < h && 0 <= j < w && g3[i][j] != g1[i][j] ensures OnBorder(x1, y1, x2, y2, i, j) {
      if g3[i][j] == g2[i][j] {
        assert g2[i][j] != g1[i][j];
      }
    }
  }

  lemma SideOnBorder(g: Grid, w: int, h: int, s: Segment, c: char, restrict: string, x1: int, y1: int, x2: int, y2: int)
    requires IsGrid(g, w, h)
    requires (s.y1 == s.y2 && (s.y1 == y1 || s.y1 == y2) && s.x1 == x1 && s.x2 == x2)
          || (s.x1 == s.x2 && (s.x1 == x1 || s.x1 == x2) && s.y1 == y1 && s.y2 == y2)
    ensures ChangedOnBorder(g, LineSpec(g, w, h, s, [c], restrict).0, w, h, x1, y1, x2, y2)
  {
    var r := LineSpec(g, w, h, s, [c], restrict).0;
    LineStaysInRect(g, w, h, s, [c], restrict);
    forall i, j | 0 <= i < h && 0 <= j < w && r[i][j] != g[i][j] ensures OnBorder(x1, y1, x2, y2, i, j) {
      assert Between(s.x1, j, s.x2) && Between(s.y1, i, s.y2);
    }
  }

  lemma {:induction false} CornersOnBorder(g: Grid, w: int, h: int, corners: seq<(int, int, char)>, gate: string, x1: int, y1: int, x2: int, y2: int)
    requires IsGrid(g, w, h)
    requires forall k :: 0 <= k < |corners| ==> OnBorder(x1, y1, x2, y2, corners[k].1, corners[k].0)
    ensures ChangedOnBorder(g, Corners(g, w, h, corners, gate), w, h, x1, y1, x2, y2)
    decreases |corners|
  {
    if corners != [] {
      var g1 := DrawCharSpec(g, w, h, corners[0].0, corners[0].1, [corners[0].2], gate).0;
      DrawCharEffect(g, w, h, corners[0].0, corners[0].1, [corners[0].2], gate);
      assert OnBorder(x1, y1, x2, y2, corners[0].1, corners[0].0);
      assert ChangedOnBorder(g, g1, w, h, x1, y1, x2, y2);
      CornersOnBorder(g1, w, h, corners[1..], gate, x1, y1, x2, y2);
      assert Corners(g, w, h, corners, gate) == Corners(g1, w, h, corners[1..], gate);
      BorderTrans(g, g1, Corners(g1, w, h, corners[1..], gate), w, h, x1, y1, x2, y2);
    }
  }

  /** `draw_box` only ever changes cells on the rectangle's border. */
  lemma BoxOnBorder(g: Grid, w: int, h: int, x1: int, y1: int, x2: int, y2: int, style: string, restrict: string)
    requires IsGrid(g, w, h)
    ensures ChangedOnBorder(g, BoxSpec(g, w, h, x1, y1, x2, y2, style, restrict).0, w, h, x1, y1, x2, y2)
  {
    var sm := StyleMapOf(style);
    if sm.Success? {
      var m := sm.value;
      var top := LineSpec(g, w, h, Segment(x1, y1, x2, y1), [m.top], restrict);
      SideOnBorder(g, w, h, Segment(x1, y1, x2, y1), m.top, restrict, x1, y1, x2, y2);
      var bottom := LineSpec(top.0, w, h, Segment(x1, y2, x2, y2), [m.bottom], restrict);
      SideOnBorder(top.0, w, h, Segment(x1, y2, x2, y2), m.bottom, restrict, x1, y1, x2, y2);
      BorderTrans(g, top.0, bottom.0, w, h, x1, y1, x2, y2);
      var left := LineSpec(bottom.0, w, h, Segment(x1, y1, x1, y2), [m.left], restrict);
      SideOnBorder(bottom.0, w, h, Segment(x1, y1, x1, y2), m.left, restrict, x1, y1, x2, y2);
      BorderTrans(g, bottom.0, left.0, w, h, x1, y1, x2, y2);
      var right := LineSpec(left.0, w, h, Segment(x2, y1, x2, y2), [m.right], restrict);
      SideOnBorder(left.0, w, h, Segment(x2, y1, x2, y2), m.right, restrict, x1, y1, x2, y2);
      BorderTrans(g, left.0, right.0, w, h, x1, y1, x2, y2);
      var corners := [(x1, y1, m.tl), (x1, y2, m.bl), (x2, y1, m.tr), (x2, y2, m.br)];
      CornersOnBorder(right.0, w, h, corners, restrict + style, x1, y1, x2, y2);
      BorderTrans(g, right.0, Corners(right.0, w, h, corners, restrict + style), w, h, x1, y1, x2, y2);
    }
  }

  /** The cell `(j, i)` after the four sides of a box: the right side is
      drawn last, then the left, the bottom and the top. */
  function SideCell(g: Grid, x1: int, y1: int, x2: int, y2: int, m: StyleMap, i: int, j: int): char
    requires 0 <= i < |g| && 0 <= j < |g[i]|
  {
    if j == x2 && y1 <= i <= y2 then m.right
    else if j == x1 && y1 <= i <= y2 then m.left
    else if i == y2 && x1 <= j <= x2 then m.bottom
    else if i == y1 && x1 <= j <= x2 then m.top
    else g[i][j]
  }

  /** A straight line of one printable character without a restrict string
      is accepted. */
  lemma PrintableLinePasses(g: Grid, w: int, h: int, s: Segment, c: char)
    requires IsGrid(g, w, h) && IsPrintable(c)
    ensures LineSpec(g, w, h, s, [c], []) == (PaintLine(g, w, h, LinePoints(s, w, h), [c], [], 0), Pass)
  {
  }

  /** The four sides of a box on the display, drawn without a restrict
      string with printable characters, all pass and leave `SideCell`. */
  lemma BoxSides(g: Grid, w: int, h: int, x1: int, y1: int, x2: int, y2: int, m: StyleMap)
    requires IsGrid(g, w, h) && 0 <= x1 < x2 < w && 0 <= y1 < y2 < h
    requires IsPrintable(m.top) && IsPrintable(m.bottom) && IsPrintable(m.left) && IsPrintable(m.right)
    ensures var top := LineSpec(g, w, h, Segment(x1, y1, x2, y1), [m.top], []);
      var bottom := LineSpec(top.0, w, h, Segment(x1, y2, x2, y2), [m.bottom], []);
      var left := LineSpec(bottom.0, w, h, Segment(x1, y1, x1, y2), [m.left], []);
      var right := LineSpec(left.0, w, h, Segment(x2, y1, x2, y2), [m.right], []);
      && top.1.Pass? && bottom.1.Pass? && left.1.Pass? && right.1.Pass?
      && forall i, j :: 0 <= i < h && 0 <= j < w ==> right.0[i][j] == SideCell(g, x1, y1, x2, y2, m, i, j)
  {
    var top := LineSpec(g, w, h, Segment(x1, y1, x2, y1), [m.top], []);
    PrintableLinePasses(g, w, h, Segment(x1, y1, x2, y1), m.top);
    HorizontalLine(g, w, h, x1, x2, y1, m.top);
    var bottom := LineSpec(top.0, w, h, Segment(x1, y2, x2, y2), [m.bottom], []);
    PrintableLinePasses(top.0, w, h, Segment(x1, y2, x2, y2), m.bottom);
    HorizontalLine(top.0, w, h, x1, x2, y2, m.bottom);
    var left := LineSpec(bottom.0, w, h, Segment(x1, y1, x1, y2), [m.left], []);
    PrintableLinePasses(bottom.0, w, h, Segment(x1, y1, x1, y2), m.left);
    VerticalLine(bottom.0, w, h, x1, y1, y2, m.left);
    var right := LineSpec(left.0, w, h, Segment(x2, y1, x2, y2), [m.right], []);
    PrintableLinePasses(left.0, w, h, Segment(x2, y1, x2, y2), m.right);
    VerticalLine(left.0, w, h, x2, y1, y2, m.right);
  }

  /** Corner writes at distinct cells of the display, each already holding a
      character of a printable gate, put every corner character in place and
      change nothing else. */
  lemma {:induction false} CornersWrite(g: Grid, w: int, h: int, corners: seq<(int, int, char)>, gate: string)
    requires IsGrid(g, w, h) && gate != [] && AllPrintable(gate)
    requires forall k :: 0 <= k < |corners| ==>
      0 <= corners[k].0 < w && 0 <= corners[k].1 < h && g[corners[k].1][corners[k].0] in gate
    requires forall k, l :: 0 <= k < l < |corners| ==> (corners[k].0, corners[k].1) != (corners[l].0, corners[l].1)
    ensures var r := Corners(g, w, h, corners, gate);
      && (forall k :: 0 <= k < |corners| ==> r[corners[k].1][corners[k].0] == corners[k].2)
      && (forall i, j :: 0 <= i < h && 0 <= j < w && (forall k :: 0 <= k < |corners| ==> (corners[k].0, corners[k].1) != (j, i)) ==>
            r[i][j] == g[i][j])
    decreases |corners|
  {
    if corners != [] {
      var c := corners[0];
      var rest := corners[1..];
      var g1 := SetCell(g, c.0, c.1, c.2);
      assert DrawCharSpec(g, w, h, c.0, c.1, [c.2], gate).0 == g1;
      forall k | 0 <= k < |rest| ensures g1[rest[k].1][rest[k].0] in gate {
        assert rest[k] == corners[k + 1];
      }
      forall k, l | 0 <= k < l < |rest| ensures (rest[k].0, rest[k].1) != (rest[l].0, rest[l].1) {
        assert rest[k] == corners[k + 1] && rest[l] == corners[l + 1];
      }
      CornersWrite(g1, w, h, rest, gate);
      var r := Corners(g1, w, h, rest, gate);
      assert Corners(g, w, h, corners, gate) == r;
      assert forall k :: 0 <= k < |rest| ==> (rest[k].0, rest[k].1) != (c.0, c.1) by {
        forall k | 0 <= k < |rest| ensures (rest[k].0, rest[k].1) != (c.0, c.1) {
          assert rest[k] == corners[k + 1];
        }
      }
      forall k | 0 <= k < |corners| ensures r[corners[k].1][corners[k].0] == corners[k].2 {
        if k > 0 {
          assert corners[k] == rest[k - 1];
        }
      }
      forall i, j | 0 <= i < h && 0 <= j < w && (forall k :: 0 <= k < |corners| ==> (corners[k].0, corners[k].1) != (j, i))
        ensures r[i][j] == g[i][j]
      {
        assert (c.0, c.1) != (j, i);
        forall k | 0 <= k < |rest| ensures (rest[k].0, rest[k].1) != (j, i) {
          assert rest[k] == corners[k + 1];
        }
      }
    }
  }

  /** The four corners of the box, in the order `draw_box` writes them. */
  function BoxCorners(x1: int, y1: int, x2: int, y2: int, m: StyleMap): seq<(int, int, char)> {
    [(x1, y1, m.tl), (x1, y2, m.bl), (x2, y1, m.tr), (x2, y2, m.br)]
  }

  /** With the sides in place, `draw_box` is the corner writes. */
  lemma BoxThenCorners(g: Grid, w: int, h: int, x1: int, y1: int, x2: int, y2: int, style: string)
    requires IsGrid(g, w, h) && 0 <= x1 < x2 < w && 0 <= y1 < y2 < h
    requires |style| in {1, 2, 3, 4, 5, 8} && AllPrintable(style)
    ensures var m := StyleMapOf(style).value;
      var top := LineSpec(g, w, h, Segment(x1, y1, x2, y1), [m.top], []);
      var bottom := LineSpec(top.0, w, h, Segment(x1, y2, x2, y2), [m.bottom], []);
      var left := LineSpec(bottom.0, w, h, Segment(x1, y1, x1, y2), [m.left], []);
      var sides := LineSpec(left.0, w, h, Segment(x2, y1, x2, y2), [m.right], []).0;
      && (forall i, j :: 0 <= i < h && 0 <= j < w ==> sides[i][j] == SideCell(g, x1, y1, x2, y2, m, i, j))
      && BoxSpec(g, w, h, x1, y1, x2, y2, style, []) == (Corners(sides, w, h, BoxCorners(x1, y1, x2, y2, m), style), Pass)
  {
    var m := StyleMapOf(style).value;
    BoxSides(g, w, h, x1, y1, x2, y2, m);
    assert [] + style == style;
  }

  /** The corner writes on the drawn sides give the finished frame. */
  lemma FrameCells(g: Grid, sides: Grid, w: int, h: int, x1: int, y1: int, x2: int, y2: int, m: StyleMap, style: string)
    requires IsGrid(g, w, h) && IsGrid(sides, w, h) && 0 <= x1 < x2 < w && 0 <= y1 < y2 < h
    requires style != [] && AllPrintable(style) && m.left in style && m.right in style
    requires forall i, j :: 0 <= i < h && 0 <= j < w ==> sides[i][j] == SideCell(g, x1, y1, x2, y2, m, i, j)
    ensures var r := Corners(sides, w, h, BoxCorners(x1, y1, x2, y2, m), style);
      && r[y1][x1] == m.tl && r[y1][x2] == m.tr && r[y2][x1] == m.bl && r[y2][x2] == m.br
      && (forall j :: x1 < j < x2 ==> r[y1][j] == m.top && r[y2][j] == m.bottom)
      && (forall i :: y1 < i < y2 ==> r[i][x1] == m.left && r[i][x2] == m.right)
      && (forall i, j :: 0 <= i < h && 0 <= j < w && !OnBorder(x1, y1, x2, y2, i, j) ==> r[i][j] == g[i][j])
  {
    var corners := BoxCorners(x1, y1, x2, y2, m);
    assert sides[y1][x1] == m.left && sides[y2][x1] == m.left;
    assert sides[y1][x2] == m.right && sides[y2][x2] == m.right;
    CornersWrite(sides, w, h, corners, style);
    var r := Corners(sides, w, h, corners, style);
    assert r[y1][x1] == m.tl by { assert corners[0] == (x1, y1, m.tl); }
    assert r[y2][x1] == m.bl by { assert corners[1] == (x1, y2, m.bl); }
    assert r[y1][x2] == m.tr by { assert corners[2] == (x2, y1, m.tr); }
    assert r[y2][x2] == m.br by { assert corners[3] == (x2, y2, m.br); }
    forall i, j | 0 <= i < h && 0 <= j < w && ((i != y1 && i != y2) || (j != x1 && j != x2))
      ensures r[i][j] == sides[i][j]
    {
      forall k | 0 <= k < |corners| ensures (corners[k].0, corners[k].1) != (j, i) {
      }
    }
  }

  /** `draw_box` inside the display, without a restrict string and with a
      printable style of an accepted length, draws the whole frame: each
      corner holds its corner character (the corner gate is the style, and
      every corner already holds a side character), the rest of the top and
      bottom rows the top and bottom characters, the rest of the left and
      right columns the side characters; no other cell changes. */
  lemma BoxDrawsStyle(g: Grid, w: int, h: int, x1: int, y1: int, x2: int, y2: int, style: string)
    requires IsGrid(g, w, h) && 0 <= x1 < x2 < w && 0 <= y1 < y2 < h
    requires |style| in {1, 2, 3, 4, 5, 8} && AllPrintable(style)
    ensures var m := StyleMapOf(style).value;
      var (r, out) := BoxSpec(g, w, h, x1, y1, x2, y2, style, []);
      && out == Pass
      && r[y1][x1] == m.tl && r[y1][x2] == m.tr && r[y2][x1] == m.bl && r[y2][x2] == m.br
      && (forall j :: x1 < j < x2 ==> r[y1][j] == m.top && r[y2][j] == m.bottom)
      && (forall i :: y1 < i < y2 ==> r[i][x1] == m.left && r[i][x2] == m.right)
      && (forall i, j :: 0 <= i < h && 0 <= j < w && !OnBorder(x1, y1, x2, y2, i, j) ==> r[i][j] == g[i][j])
  {
    var m := StyleMapOf(style).value;
    BoxThenCorners(g, w, h, x1, y1, x2, y2, style);
    var top := LineSpec(g, w, h, Segment(x1, y1, x2, y1), [m.top], []);
    var bottom := LineSpec(top.0, w, h, Segment(x1, y2, x2, y2), [m.bottom], []);
    var left := LineSpec(bottom.0, w, h, Segment(x1, y1, x1, y2), [m.left], []);
    var sides := LineSpec(left.0, w, h, Segment(x2, y1, x2, y2), [m.right], []).0;
    FrameCells(g, sides, w, h, x1, y1, x2, y2, m, style);
  }

  // ---------------------------------------------------------------------------
  // export_display

  function Min(a: int, b: int): int { if a <= b then a else b }
  function Max(a: int, b: int): int { if a <= b then b else a }

  /** `export_display`: the rectangle between the two corners (in either
      order), both of which must lie on the display. */
  function ExportSpec(g: Grid, w: int, h: int, x1: int, y1: int, x2: int, y2: int): (r: Result<Grid>)
    requires IsGrid(g, w, h)
    ensures r.Failure? <==> (!IsValidPosition(Position(Min(x1, x2), Min(y1, y2)), (w, h))
                          || !IsValidPosition(Position(Max(x1, x2), Max(y1, y2)), (w, h)))
    ensures r.Failure? ==> r.error == InvalidPosition
    ensures r.Success? ==>
      var left, top := Min(x1, x2), Min(y1, y2);
      && IsGrid(r.value, Max(x1, x2) - left + 1, Max(y1, y2) - top + 1)
      && forall i, j :: 0 <= i < |r.value| && 0 <= j < |r.value[i]| ==> r.value[i][j] == g[top + i][left + j]
  {
    var left, top, right, bottom := Min(x1, x2), Min(y1, y2), Max(x1, x2), Max(y1, y2);
    if !IsValidPosition(Position(left, top), (w, h)) then Failure(InvalidPosition)
    else if !IsValidPosition(Position(right, bottom), (w, h)) then Failure(InvalidPosition)
    else Success(seq(bottom - top + 1, i requires 0 <= i <= bottom - top => g[top + i][left..right + 1]))
  }

  // ---------------------------------------------------------------------------
  // merge_display

  /** `merge_display` calls `draw_str` with no width limit and no screen-edge
      wrap, so textwrap is never reached; any wrapper will do. */
  const NoWrap: Wrapper := (s: string, n: int) => []

  function MergeOptions(mask: string, restrict: string): StrOptions {
    Defaults.(textMask := mask, restrict := restrict)
  }

  /** The line that row `i` of a display merged at line `y` is drawn on. */
  function RowLine(y: int, i: nat): int {
    y + i
  }

  /** The rows from `i` on, each drawn as a string at (x, y + i). A ValueError
      ends the merge quietly; anything else propagates. When a display is
      merged into itself, each row is read from the grid as changed so far. */
  function MergeRows(g: Grid, w: int, h: int, x: int, y: int, src: Grid, selfMerge: bool, mask: string, restrict: string, i: nat): (res: (Grid, Outcome))
    requires IsGrid(g, w, h) && i <= (if selfMerge then h else |src|)
    ensures IsGrid(res.0, w, h)
    decreases (if selfMerge then h else |src|) - i
  {
    if i == (if selfMerge then h else |src|) then (g, Pass)
    else
      var row := if selfMerge then g[i] else src[i];
      var step := DrawStrSpec(g, w, h, x, RowLine(y, i), [Item(row)], MergeOptions(mask, restrict), NoWrap);
      match step.1
      case Failure(e) => (step.0, if e.IsValueError() then Pass else Fail(e))
      case Success(_) => MergeRows(step.0, w, h, x, y, src, selfMerge, mask, restrict, i + 1)
  }

  /** `merge_display`: the anchor check (positions left of or above the
      display are let through), the two masks, then the rows. */
  function MergeSpec(g: Grid, w: int, h: int, x: int, y: int, src: Grid, selfMerge: bool, mask: string, restrict: string): (res: (Grid, Outcome))
    requires IsGrid(g, w, h) && (selfMerge ==> src == g)
    ensures IsGrid(res.0, w, h)
  {
    if !IsValidPosition(Position(x, y), (w, h)) && x >= 0 && y >= 0 then (g, Fail(InvalidPosition))
    else if mask != [] && !AllPrintable(mask) then (g, Fail(InvalidMask))
    else if restrict != [] && !AllPrintable(restrict) then (g, Fail(InvalidMask))
    else MergeRows(g, w, h, x, y, src, selfMerge, mask, restrict, 0)
  }

  /** `g` with its first `k` rows from row `y` on replaced, from column `x`,
      by the rows of `src`. */
  ghost function Pasted(g: Grid, x: int, y: int, src: Grid, k: nat): (r: Grid)
    requires k <= |src|
    ensures |r| == |g| && forall i :: 0 <= i < |g| ==> |r[i]| == |g[i]|
    ensures forall i, j :: 0 <= i < |g| && 0 <= j < |g[i]| ==>
      r[i][j] == if y <= i < y + k && x <= j < x + |src[i - y]| then src[i - y][j - x] else g[i][j]
  {
    seq(|g|, i requires 0 <= i < |g| => seq(|g[i]|, j requires 0 <= j < |g[i]| =>
      if y <= i < y + k && x <= j < x + |src[i - y]| then src[i - y][j - x] else g[i][j]))
  }

  /** A printable row merged at a position on the display with room for it
      is copied there verbatim. */
  lemma MergeRowCopies(g: Grid, w: int, h: int, x: int, y: int, row: string)
    requires IsGrid(g, w, h) && 0 <= x < w && 0 <= y < h && x + |row| <= w && AllPrintable(row)
    ensures DrawStrSpec(g, w, h, x, y, [Item(row)], MergeOptions("", ""), NoWrap)
      == (Overwrite(g, x, y, row, 0), Success(DrawResult(Box(x - 1, y - 1, x + |row|, y + 1), [row])))
  {
    var o := MergeOptions("", "");
    assert [Item(row)] == Items(FlattenItems([Item(row)]));
    CleanKeepsPrintable([row]);
    assert FlattenItems([Item(row)]) == [row];
    var dir := Direction(true, false, Left);
    assert Validate(w, h, x, y, [Item(row)], o) == Success(dir);
    assert Widen(w, x, [row], o, dir, NoWrap) == Success([row]);
    var lay := Layout([row], |row|, dir, DrawResult(Box(x - 1, y - 1, x + |row|, y + 1), [row]));
    assert Prepare(w, h, x, y, [Item(row)], o, NoWrap) == Success(lay);
    var t := TargetOf(w, h, x, y, o, lay);
    ForwardLeftCopies(g, t, 0, row, 0);
    var g1 := Overwrite(g, x, y, row, 0);
    assert PlaceLines(g, t, [row], 0) == PlaceLines(g1, t, [row], 1) == (g1, Pass);
  }

  /** Two grids of the same shape with the same cells are equal. */
  lemma SameCells(a: Grid, b: Grid)
    requires |a| == |b| && forall i :: 0 <= i < |a| ==> |a[i]| == |b[i]|
    requires forall i, j :: 0 <= i < |a| && 0 <= j < |a[i]| ==> a[i][j] == b[i][j]
    ensures a == b
  {
    forall i | 0 <= i < |a| ensures a[i] == b[i] {
      assert forall j :: 0 <= j < |a[i]| ==> a[i][j] == b[i][j];
    }
  }

  /** One row of a merge: drawn, then the merge goes on or ends. */
  lemma MergeRowsStep(g: Grid, w: int, h: int, x: int, y: int, src: Grid, selfMerge: bool, mask: string, restrict: string, i: nat,
                      row: string, g1: Grid, r: Result<DrawResult>)
    requires IsGrid(g, w, h) && i < (if selfMerge then h else |src|)
    requires row == if selfMerge then g[i] else src[i]
    requires (g1, r) == DrawStrSpec(g, w, h, x, RowLine(y, i), [Item(row)], MergeOptions(mask, restrict), NoWrap)
    ensures IsGrid(g1, w, h)
    ensures r.Success? ==> MergeRows(g, w, h, x, y, src, selfMerge, mask, restrict, i) == MergeRows(g1, w, h, x, y, src, selfMerge, mask, restrict, i + 1)
    ensures r.Failure? ==> MergeRows(g, w, h, x, y, src, selfMerge, mask, restrict, i) == (g1, if r.error.IsValueError() then Pass else Fail(r.error))
  {
  }

  /** Pasting row `i` on top of the first `i` pasted rows. */
  lemma PasteNext(g0: Grid, w: int, h: int, x: int, y: int, src: Grid, sw: nat, i: nat)
    requires IsGrid(g0, w, h) && IsGrid(src, sw, |src|) && i < |src|
    requires 0 <= x && 0 <= y && y + |src| <= h && x + sw <= w
    ensures var g := Pasted(g0, x, y, src, i);
      Overwrite(g, x, y + i, src[i], 0) == Pasted(g0, x, y, src, i + 1)
  {
    var g := Pasted(g0, x, y, src, i);
    var g1 := Overwrite(g, x, y + i, src[i], 0);
    var p := Pasted(g0, x, y, src, i + 1);
    forall r, c | 0 <= r < |g1| && 0 <= c < |g1[r]| ensures g1[r][c] == p[r][c] {
    }
    SameCells(g1, p);
  }

  /** A printable row that fits is copied and the merge goes on. */
  lemma MergeRowsCopyStep(g: Grid, w: int, h: int, x: int, y: int, src: Grid, i: nat)
    requires IsGrid(g, w, h) && i < |src| && 0 <= x < w && 0 <= y + i < h && x + |src[i]| <= w && AllPrintable(src[i])
    ensures MergeRows(g, w, h, x, y, src, false, "", "", i) == MergeRows(Overwrite(g, x, y + i, src[i], 0), w, h, x, y, src, false, "", "", i + 1)
  {
    var row, line := src[i], RowLine(y, i);
    MergeRowCopies(g, w, h, x, line, row);
    var g1 := Overwrite(g, x, line, row, 0);
    MergeRowsStep(g, w, h, x, y, src, false, "", "", i, row, g1, Success(DrawResult(Box(x - 1, line - 1, x + |row|, line + 1), [row])));
  }

  /** Merging row `i` of a printable grid onto its first `i` rows pasted
      gives its first `i + 1` rows pasted. */
  lemma MergeRowsPasteStep(g0: Grid, w: int, h: int, x: int, y: int, src: Grid, sw: nat, i: nat)
    requires IsGrid(g0, w, h) && IsGrid(src, sw, |src|) && i < |src|
    requires 0 <= x < w && 0 <= y && y + |src| <= h && x + sw <= w
    requires forall r, c :: 0 <= r < |src| && 0 <= c < sw ==> IsPrintable(src[r][c])
    ensures IsGrid(Pasted(g0, x, y, src, i), w, h)
    ensures MergeRows(Pasted(g0, x, y, src, i), w, h, x, y, src, false, "", "", i)
         == MergeRows(Pasted(g0, x, y, src, i + 1), w, h, x, y, src, false, "", "", i + 1)
  {
    var row := src[i];
    assert AllPrintable(row) by {
      forall c | 0 <= c < |row| ensures IsPrintable(row[c]) {
        assert IsPrintable(src[i][c]);
      }
    }
    MergeRowsCopyStep(Pasted(g0, x, y, src, i), w, h, x, y, src, i);
    PasteNext(g0, w, h, x, y, src, sw, i);
  }

  lemma {:induction false} MergeRowsCopies(g0: Grid, w: int, h: int, x: int, y: int, src: Grid, sw: nat, i: nat)
    requires IsGrid(g0, w, h) && IsGrid(src, sw, |src|) && i <= |src|
    requires 0 <= x < w && 0 <= y && y + |src| <= h && x + sw <= w
    requires forall r, c :: 0 <= r < |src| && 0 <= c < sw ==> IsPrintable(src[r][c])
    ensures IsGrid(Pasted(g0, x, y, src, i), w, h)
    ensures MergeRows(Pasted(g0, x, y, src, i), w, h, x, y, src, false, "", "", i) == (Pasted(g0, x, y, src, |src|), Pass)
    decreases |src| - i
  {
    if i < |src| {
      MergeRowsPasteStep(g0, w, h, x, y, src, sw, i);
      MergeRowsCopies(g0, w, h, x, y, src, sw, i + 1);
    }
  }

  /** Merging a printable grid into a display with room for it pastes it. */
  lemma MergeCopies(g: Grid, w: int, h: int, x: int, y: int, src: Grid, sw: nat)
    requires IsGrid(g, w, h) && IsGrid(src, sw, |src|)
    requires 0 <= x < w && 0 <= y < h && y + |src| <= h && x + sw <= w
    requires forall r, c :: 0 <= r < |src| && 0 <= c < sw ==> IsPrintable(src[r][c])
    ensures MergeSpec(g, w, h, x, y, src, false, "", "") == (Pasted(g, x, y, src, |src|), Pass)
  {
    SameCells(g, Pasted(g, x, y, src, 0));
    MergeRowsCopies(g, w, h, x, y, src, sw, 0);
  }

  /** Exporting a region of printable cells and merging it back at its own
      top-left corner leaves the display as it was. */
  lemma ExportMergeRoundTrip(g: Grid, w: int, h: int, x1: int, y1: int, x2: int, y2: int)
    requires IsGrid(g, w, h)
    requires ExportSpec(g, w, h, x1, y1, x2, y2).Success?
    requires forall r, c :: Min(y1, y2) <= r <= Max(y1, y2) && Min(x1, x2) <= c <= Max(x1, x2) ==> IsPrintable(g[r][c])
    ensures MergeSpec(g, w, h, Min(x1, x2), Min(y1, y2), ExportSpec(g, w, h, x1, y1, x2, y2).value, false, "", "") == (g, Pass)
  {
    var sub := ExportSpec(g, w, h, x1, y1, x2, y2).value;
    var left, top := Min(x1, x2), Min(y1, y2);
    var sw := Max(x1, x2) - left + 1;
    assert IsGrid(sub, sw, |sub|) && top + |sub| <= h && left + sw <= w;
    forall r, c | 0 <= r < |sub| && 0 <= c < sw ensures IsPrintable(sub[r][c]) {
      assert sub[r][c] == g[top + r][left + c];
    }
    MergeOwnRegion(g, w, h, left, top, sub, sw);
  }

  lemma MergeOwnRegion(g: Grid, w: int, h: int, x: nat, y: nat, sub: Grid, sw: nat)
    requires IsGrid(g, w, h) && IsGrid(sub, sw, |sub|) && x < w && y < h && y + |sub| <= h && x + sw <= w
    requires forall r, c :: 0 <= r < |sub| && 0 <= c < sw ==> IsPrintable(sub[r][c])
    requires forall r, c :: 0 <= r < |sub| && 0 <= c < sw ==> sub[r][c] == g[y + r][x + c]
    ensures MergeSpec(g, w, h, x, y, sub, false, "", "") == (g, Pass)
  {
    MergeCopies(g, w, h, x, y, sub, sw);
    PasteOwnRegion(g, w, h, x, y, sub, sw);
  }

  /** Pasting a copy of a region of `g` back where it came from gives `g`. */
  lemma PasteOwnRegion(g: Grid, w: int, h: int, x: nat, y: nat, sub: Grid, sw: nat)
    requires IsGrid(g, w, h) && IsGrid(sub, sw, |sub|) && y + |sub| <= h && x + sw <= w
    requires forall r, c :: 0 <= r < |sub| && 0 <= c < sw ==> sub[r][c] == g[y + r][x + c]
    ensures Pasted(g, x, y, sub, |sub|) == g
  {
    var p := Pasted(g, x, y, sub, |sub|);
    forall i, j | 0 <= i < |g| && 0 <= j < |g[i]| ensures p[i][j] == g[i][j] {
      if y <= i < y + |sub| && x <= j < x + |sub[i - y]| {
        assert sub[i - y][j - x] == g[y + (i - y)][x + (j - x)];
      }
    }
    SameCells(p, g);
  }

  // ---------------------------------------------------------------------------
  // fill

  /** The (dy, dx) neighbour offsets of `fill`: the four sides, then for 8
      also the four diagonals. */
  function Directions(neighbour: int): (d: seq<(int, int)>)
    ensures |d| == if neighbour == 4 then 4 else 8
    ensures d[..4] == [(-1, 0), (1, 0), (0, -1), (0, 1)]
  {
    if neighbour == 4 then [(-1, 0), (1, 0), (0, -1), (0, 1)]
    else [(-1, 0), (1, 0), (0, -1), (0, 1), (-1, 1), (1, 1), (-1, -1), (1, -1)]
  }

  /** The checks of `fill` before any write: the character, the ignore
      string's printability, the neighbourhood. */
  function FillCheck(ch: string, ignore: string, neighbour: int): (r: Outcome)
    ensures r.Pass? <==> |ch| == 1 && (ignore == [] || AllPrintable(ignore)) && (neighbour == 4 || neighbour == 8)
  {
    match CharacterOf(ch)
    case Failure(e) => Fail(e)
    case Success(_) =>
      if ignore != [] && !AllPrintable(ignore) then Fail(InvalidMask)
      else if neighbour != 4 && neighbour != 8 then Fail(InvalidNeighbour)
      else Pass
  }

  predicate InGrid(g: Grid, i: int, j: int) {
    0 <= i < |g| && 0 <= j < |g[i]|
  }

  /** Same number of rows, each of the same length. */
  predicate SameShape(a: Grid, b: Grid) {
    |a| == |b| && forall i :: 0 <= i < |a| ==> |a[i]| == |b[i]|
  }

  /** Every changed cell held a target character and now holds `ch`. */
  ghost predicate FillSound(before: Grid, after: Grid, target: string, ch: char) {
    && SameShape(before, after)
    && forall i, j :: InGrid(before, i, j) && after[i][j] != before[i][j] ==> before[i][j] in target && after[i][j] == ch
  }

  /** No changed cell has a neighbour still holding a target character. */
  ghost predicate FillClosed(before: Grid, after: Grid, target: string, dirs: seq<(int, int)>)
    requires SameShape(before, after)
  {
    ClosedOutside(before, after, target, dirs, [])
  }

  /** Every changed cell outside `pending` has no neighbour holding a target
      character (the cells still queued are exempt). */
  ghost predicate ClosedOutside(before: Grid, after: Grid, target: string, dirs: seq<(int, int)>, pending: seq<(int, int)>)
    requires SameShape(before, after)
  {
    forall i, j, k ::
      (InGrid(before, i, j) && after[i][j] != before[i][j] && (i, j) !in pending && 0 <= k < |dirs|
       && InGrid(before, i + dirs[k].0, j + dirs[k].1))
      ==> after[i + dirs[k].0][j + dirs[k].1] !in target
  }

  /** Every queued cell is on the grid and held a target character. */
  ghost predicate Queued(before: Grid, target: string, queue: seq<(int, int)>) {
    forall k :: 0 <= k < |queue| ==> InGrid(before, queue[k].0, queue[k].1) && before[queue[k].0][queue[k].1] in target
  }

  /** The first `k` neighbours of `q` that are on the grid hold non-target characters. */
  ghost predicate NeighboursClear(before: Grid, g: Grid, target: string, dirs: seq<(int, int)>, q: (int, int), k: int)
    requires SameShape(before, g)
  {
    forall d :: 0 <= d < k && d < |dirs| && InGrid(before, q.0 + dirs[d].0, q.1 + dirs[d].1) ==> g[q.0 + dirs[d].0][q.1 + dirs[d].1] !in target
  }

  /** Taking the head of the queue and writing the fill character there. */
  lemma PopStep(before: Grid, g: Grid, target: string, ch: char, dirs: seq<(int, int)>, queue: seq<(int, int)>)
    requires FillSound(before, g, target, ch) && Queued(before, target, queue) && ClosedOutside(before, g, target, dirs, queue)
    requires |queue| > 0 && ch !in target
    ensures var q := queue[0];
      var g' := SetCell(g, q.1, q.0, ch);
      && InGrid(g, q.0, q.1)
      && FillSound(before, g', target, ch) && Queued(before, target, queue[1..])
      && ClosedOutside(before, g', target, dirs, [q] + queue[1..])
      && CountIn(g', target) <= CountIn(g, target)
      && NeighboursClear(before, g', target, dirs, q, 0)
  {
    var q := queue[0];
    assert queue == [q] + queue[1..];
    CountAfterSet(g, q.1, q.0, ch, target);
    ClosedAfterSet(before, g, target, dirs, queue, q, ch);
  }

  /** Writing the fill character into a target neighbour and queueing it. */
  lemma EnqueueStep(before: Grid, g: Grid, target: string, ch: char, dirs: seq<(int, int)>, q: (int, int), queue: seq<(int, int)>, n: (int, int))
    requires FillSound(before, g, target, ch) && Queued(before, target, queue) && ClosedOutside(before, g, target, dirs, [q] + queue)
    requires InGrid(before, n.0, n.1) && g[n.0][n.1] in target && ch !in target
    ensures var g' := SetCell(g, n.1, n.0, ch);
      && FillSound(before, g', target, ch) && Queued(before, target, queue + [n])
      && ClosedOutside(before, g', target, dirs, [q] + (queue + [n]))
      && CountIn(g', target) == CountIn(g, target) - 1
      && forall i, j :: InGrid(before, i, j) && g[i][j] !in target ==> g'[i][j] !in target
  {
    assert before[n.0][n.1] == g[n.0][n.1];
    CountAfterSet(g, n.1, n.0, ch, target);
    assert [q] + (queue + [n]) == [q] + queue + [n];
    ClosedGrow(before, g, target, dirs, [q] + queue, [q] + queue + [n]);
    ClosedAfterSet(before, g, target, dirs, [q] + queue + [n], n, ch);
  }

  /** Looking at neighbour `k` of `q`: afterwards the first `k + 1` are clear. */
  lemma NeighbourStep(before: Grid, g: Grid, g': Grid, target: string, dirs: seq<(int, int)>, q: (int, int), k: nat)
    requires SameShape(before, g) && SameShape(before, g') && k < |dirs|
    requires NeighboursClear(before, g, target, dirs, q, k)
    requires forall i, j :: InGrid(before, i, j) && g[i][j] !in target ==> g'[i][j] !in target
    requires InGrid(before, q.0 + dirs[k].0, q.1 + dirs[k].1) ==> g'[q.0 + dirs[k].0][q.1 + dirs[k].1] !in target
    ensures NeighboursClear(before, g', target, dirs, q, k + 1)
  {
  }

  /** Writing a target cell keeps a fill sound. */
  lemma SoundAfterSet(before: Grid, g: Grid, target: string, ch: char, n: (int, int))
    requires FillSound(before, g, target, ch) && InGrid(before, n.0, n.1) && before[n.0][n.1] in target
    ensures FillSound(before, SetCell(g, n.1, n.0, ch), target, ch)
  {
  }

  /** Writing a non-target character into a pending cell keeps the others closed. */
  lemma ClosedAfterSet(before: Grid, g: Grid, target: string, dirs: seq<(int, int)>, pending: seq<(int, int)>, n: (int, int), ch: char)
    requires SameShape(before, g) && ClosedOutside(before, g, target, dirs, pending)
    requires InGrid(before, n.0, n.1) && n in pending && ch !in target
    ensures SameShape(before, SetCell(g, n.1, n.0, ch))
    ensures ClosedOutside(before, SetCell(g, n.1, n.0, ch), target, dirs, pending)
  {
    var g' := SetCell(g, n.1, n.0, ch);
    forall i, j, k | InGrid(before, i, j) && g'[i][j] != before[i][j] && (i, j) !in pending && 0 <= k < |dirs|
      && InGrid(before, i + dirs[k].0, j + dirs[k].1)
      ensures g'[i + dirs[k].0][j + dirs[k].1] !in target
    {
      assert g[i][j] == g'[i][j];
    }
  }

  /** Queueing more cells only widens the exemption. */
  lemma ClosedGrow(before: Grid, g: Grid, target: string, dirs: seq<(int, int)>, pending: seq<(int, int)>, more: seq<(int, int)>)
    requires SameShape(before, g) && ClosedOutside(before, g, target, dirs, pending)
    requires forall q :: q in pending ==> q in more
    ensures ClosedOutside(before, g, target, dirs, more)
  {
  }

  /** Once every neighbour of `q` holds a non-target character, `q` need no
      longer be exempt. */
  lemma ClosedPop(before: Grid, g: Grid, target: string, dirs: seq<(int, int)>, q: (int, int), pending: seq<(int, int)>)
    requires SameShape(before, g) && ClosedOutside(before, g, target, dirs, [q] + pending)
    requires NeighboursClear(before, g, target, dirs, q, |dirs|)
    ensures ClosedOutside(before, g, target, dirs, pending)
  {
    forall i, j, k | InGrid(before, i, j) && g[i][j] != before[i][j] && (i, j) !in pending && 0 <= k < |dirs|
      && InGrid(before, i + dirs[k].0, j + dirs[k].1)
      ensures g[i + dirs[k].0][j + dirs[k].1] !in target
    {
      if (i, j) != q {
        assert (i, j) !in [q] + pending;
      }
    }
  }

  /** A walk through target cells of `g`, each step one of the offsets. */
  ghost predicate TargetPath(g: Grid, target: string, dirs: seq<(int, int)>, path: seq<(int, int)>) {
    && (forall k :: 0 <= k < |path| ==> InGrid(g, path[k].0, path[k].1) && g[path[k].0][path[k].1] in target)
    && (forall k :: 0 <= k < |path| - 1 ==> Neighbours(dirs, path[k], path[k + 1]))
  }

  /** `q` is `p` moved by one of the offsets. */
  ghost predicate Neighbours(dirs: seq<(int, int)>, p: (int, int), q: (int, int)) {
    exists d :: 0 <= d < |dirs| && q == (p.0 + dirs[d].0, p.1 + dirs[d].1)
  }

  /** One step of a walk: a changed cell's target neighbour was changed too. */
  lemma FillStep(before: Grid, after: Grid, target: string, ch: char, dirs: seq<(int, int)>, p: (int, int), d: nat)
    requires FillSound(before, after, target, ch) && FillClosed(before, after, target, dirs) && ch !in target
    requires InGrid(before, p.0, p.1) && after[p.0][p.1] != before[p.0][p.1] && d < |dirs|
    requires InGrid(before, p.0 + dirs[d].0, p.1 + dirs[d].1) && before[p.0 + dirs[d].0][p.1 + dirs[d].1] in target
    ensures after[p.0 + dirs[d].0][p.1 + dirs[d].1] == ch
  {
    var q := (p.0 + dirs[d].0, p.1 + dirs[d].1);
    assert after[q.0][q.1] !in target;
  }

  /** The tail of a walk is a walk. */
  lemma TargetPathTail(g: Grid, target: string, dirs: seq<(int, int)>, path: seq<(int, int)>)
    requires TargetPath(g, target, dirs, path) && |path| > 0
    ensures TargetPath(g, target, dirs, path[1..])
  {
    var rest := path[1..];
    forall k | 0 <= k < |rest| - 1 ensures Neighbours(dirs, rest[k], rest[k + 1]) {
      assert rest[k] == path[k + 1] && rest[k + 1] == path[k + 2];
    }
  }

  /** A fill that is sound, closed and has changed the seed reaches every
      cell connected to the seed through target cells. */
  lemma {:induction false} FillReaches(before: Grid, after: Grid, target: string, ch: char, dirs: seq<(int, int)>, path: seq<(int, int)>)
    requires FillSound(before, after, target, ch) && FillClosed(before, after, target, dirs) && ch !in target
    requires TargetPath(before, target, dirs, path) && |path| > 0
    requires after[path[0].0][path[0].1] == ch
    ensures forall k :: 0 <= k < |path| ==> after[path[k].0][path[k].1] == ch
    decreases |path|
  {
    if |path| > 1 {
      var p, q := path[0], path[1];
      assert InGrid(before, p.0, p.1) && before[p.0][p.1] in target;
      assert InGrid(before, q.0, q.1) && before[q.0][q.1] in target;
      var d := PickDirection(dirs, p, q);
      FillStep(before, after, target, ch, dirs, p, d);
      var rest := path[1..];
      TargetPathTail(before, target, dirs, path);
      FillReaches(before, after, target, ch, dirs, rest);
      forall k | 1 <= k < |path| ensures after[path[k].0][path[k].1] == ch {
        assert path[k] == rest[k - 1];
      }
    }
  }

  /** The offset that leads from `p` to its neighbour `q`. */
  lemma PickDirection(dirs: seq<(int, int)>, p: (int, int), q: (int, int)) returns (d: nat)
    requires Neighbours(dirs, p, q)
    ensures d < |dirs| && q == (p.0 + dirs[d].0, p.1 + dirs[d].1)
  {
    d :| 0 <= d < |dirs| && q == (p.0 + dirs[d].0, p.1 + dirs[d].1);
  }
}
