/** The drawing loop of `Display.draw_str` (TexUI.py:690-738) as a
    specification: which cell each character of each line goes to, in which
    order the skips, stops and failures are decided, and the whole of
    `draw_str` as the pipeline of `TextLayout` followed by this loop. */
module Placement {
  import opened Errors
  import opened DatatypeExtend
  import opened HelperFunction
  import opened Grid
  import opened TextLayout

  /** What the loop reads besides the grid: the anchor, the display size,
      the longest line's length, the direction and the two masks. */
  datatype Target = Target(x: int, y: int, w: int, h: int, maxLen: int, dir: Direction, textMask: string, restrict: string)

  /** The column character `c` of `line` is written to. */
  function Column(t: Target, line: string, c: int): int {
    if t.dir.action then
      if t.dir.anchor == Left then t.x + c else t.x + c + (t.maxLen - |line|)
    else
      if t.dir.anchor == Left then t.x - c else t.x - c + t.maxLen - 1
  }

  /** The left and right sides of the result box for this target. */
  function BoxLeft(t: Target): int {
    if t.dir.action || t.dir.anchor == Right then t.x - 1 else t.x - t.maxLen
  }

  function BoxRight(t: Target): int {
    if t.dir.action || t.dir.anchor == Right then t.x + t.maxLen else t.x + 1
  }

  predicate Masked(t: Target, ch: char) {
    t.textMask != [] && ch in t.textMask
  }

  /** The characters of one line from index `c` on. Per character, in the
      source's order: a masked character is skipped; an anchor off the
      display fails (the restrict test reads the anchor's cell first); a
      closed restrict gate skips; a column or row past the display ends the
      line; a leftward column before the display is skipped; a column past
      the right edge fails like a list assignment out of range; otherwise the
      character is written. */
  function PlaceChars(g: Grid, t: Target, row: nat, line: string, c: nat): (res: (Grid, Outcome))
    requires IsGrid(g, t.w, t.h) && c <= |line| && |line| <= t.maxLen
    ensures IsGrid(res.0, t.w, t.h)
    decreases |line| - c
  {
    if c == |line| then (g, Pass)
    else if Masked(t, line[c]) then PlaceChars(g, t, row, line, c + 1)
    else if !IsValidPosition(Position(t.x, t.y), (t.w, t.h)) then (g, Fail(InvalidPosition))
    else if t.restrict != [] && g[t.y][t.x] !in t.restrict then PlaceChars(g, t, row, line, c + 1)
    else if t.x + c >= t.w || t.y + row >= t.h then (g, Pass)
    else
      var col := Column(t, line, c);
      if !t.dir.action && col < 0 then PlaceChars(g, t, row, line, c + 1)
      else if col >= t.w then (g, Fail(IndexOutOfRange))
      else PlaceChars(SetCell(g, col, t.y + row, line[c]), t, row, line, c + 1)
  }

  /** The lines from row `r` on; the first failure ends the drawing. */
  function PlaceLines(g: Grid, t: Target, lines: seq<string>, r: nat): (res: (Grid, Outcome))
    requires IsGrid(g, t.w, t.h) && r <= |lines| && LinesWithin(lines, t.maxLen)
    ensures IsGrid(res.0, t.w, t.h)
    decreases |lines| - r
  {
    if r == |lines| then (g, Pass)
    else
      var step := PlaceChars(g, t, r, lines[r], 0);
      if step.1.Fail? then step else PlaceLines(step.0, t, lines, r + 1)
  }

  // ---------------------------------------------------------------------------
  // Where the loop writes

  /** Every cell that differs lies in rows [lo, hi), strictly between the
      box's left and right sides, and holds a character that is not masked. */
  ghost predicate ChangedIn(g: Grid, r: Grid, t: Target, lo: int, hi: int)
    requires IsGrid(g, t.w, t.h) && IsGrid(r, t.w, t.h)
  {
    forall i, j :: 0 <= i < t.h && 0 <= j < t.w && r[i][j] != g[i][j] ==>
      lo <= i < hi && BoxLeft(t) < j < BoxRight(t) && !Masked(t, r[i][j])
  }

  lemma ChangedInTrans(g1: Grid, g2: Grid, g3: Grid, t: Target, lo1: int, hi1: int, lo2: int, hi2: int, lo: int, hi: int)
    requires IsGrid(g1, t.w, t.h) && IsGrid(g2, t.w, t.h) && IsGrid(g3, t.w, t.h)
    requires ChangedIn(g1, g2, t, lo1, hi1) && ChangedIn(g2, g3, t, lo2, hi2)
    requires lo <= lo1 && hi1 <= hi && lo <= lo2 && hi2 <= hi
    ensures ChangedIn(g1, g3, t, lo, hi)
  {
    forall i, j | 0 <= i < t.h && 0 <= j < t.w && g3[i][j] != g1[i][j]
      ensures lo <= i < hi && BoxLeft(t) < j < BoxRight(t) && !Masked(t, g3[i][j])
    {
      if g3[i][j] == g2[i][j] {
        assert g2[i][j] != g1[i][j];
      }
    }
  }

  /** A single write of the loop lands inside the result box, on the row of
      its line, and is not a masked character. */
  lemma WriteInside(g: Grid, t: Target, row: nat, line: string, c: nat)
    requires IsGrid(g, t.w, t.h) && c < |line| <= t.maxLen && !Masked(t, line[c])
    requires IsValidPosition(Position(t.x, t.y), (t.w, t.h)) && t.x + c < t.w && t.y + row < t.h
    requires (t.dir.action || Column(t, line, c) >= 0) && Column(t, line, c) < t.w
    ensures ChangedIn(g, SetCell(g, Column(t, line, c), t.y + row, line[c]), t, t.y + row, t.y + row + 1)
  {
  }

  /** A write inside the box followed by the rest of the line changes only
      cells inside the box when the rest does. */
  lemma WriteThenRest(g: Grid, t: Target, row: nat, line: string, c: nat)
    requires IsGrid(g, t.w, t.h) && c < |line| <= t.maxLen && !Masked(t, line[c])
    requires IsValidPosition(Position(t.x, t.y), (t.w, t.h)) && t.x + c < t.w && t.y + row < t.h
    requires (t.dir.action || Column(t, line, c) >= 0) && Column(t, line, c) < t.w
    requires var g1 := SetCell(g, Column(t, line, c), t.y + row, line[c]);
      ChangedIn(g1, PlaceChars(g1, t, row, line, c + 1).0, t, t.y + row, t.y + row + 1)
    ensures var g1 := SetCell(g, Column(t, line, c), t.y + row, line[c]);
      ChangedIn(g, PlaceChars(g1, t, row, line, c + 1).0, t, t.y + row, t.y + row + 1)
  {
    var g1 := SetCell(g, Column(t, line, c), t.y + row, line[c]);
    WriteInside(g, t, row, line, c);
    ChangedInTrans(g, g1, PlaceChars(g1, t, row, line, c + 1).0, t,
      t.y + row, t.y + row + 1, t.y + row, t.y + row + 1, t.y + row, t.y + row + 1);
  }

  lemma {:induction false} PlaceCharsInside(g: Grid, t: Target, row: nat, line: string, c: nat)
    requires IsGrid(g, t.w, t.h) && c <= |line| && |line| <= t.maxLen
    ensures ChangedIn(g, PlaceChars(g, t, row, line, c).0, t, t.y + row, t.y + row + 1)
    decreases |line| - c
  {
    if c < |line| && !Masked(t, line[c]) && IsValidPosition(Position(t.x, t.y), (t.w, t.h)) {
      if t.restrict != [] && g[t.y][t.x] !in t.restrict {
        PlaceCharsInside(g, t, row, line, c + 1);
      } else if t.x + c < t.w && t.y + row < t.h {
        var col := Column(t, line, c);
        if !t.dir.action && col < 0 {
          PlaceCharsInside(g, t, row, line, c + 1);
        } else if col < t.w {
          var g1 := SetCell(g, col, t.y + row, line[c]);
          PlaceCharsInside(g1, t, row, line, c + 1);
          WriteThenRest(g, t, row, line, c);
        }
      }
    } else if c < |line| && Masked(t, line[c]) {
      PlaceCharsInside(g, t, row, line, c + 1);
    }
  }

  /** The loop writes only inside the result box, in the rows of the lines
      drawn, and never writes a masked character. */
  lemma {:induction false} PlaceLinesInside(g: Grid, t: Target, lines: seq<string>, r: nat)
    requires IsGrid(g, t.w, t.h) && r <= |lines| && LinesWithin(lines, t.maxLen)
    ensures ChangedIn(g, PlaceLines(g, t, lines, r).0, t, t.y + r, t.y + |lines|)
    decreases |lines| - r
  {
    if r < |lines| {
      var step := PlaceChars(g, t, r, lines[r], 0);
      PlaceCharsInside(g, t, r, lines[r], 0);
      if step.1.Pass? {
        PlaceLinesInside(step.0, t, lines, r + 1);
        ChangedInTrans(g, step.0, PlaceLines(step.0, t, lines, r + 1).0, t,
          t.y + r, t.y + r + 1, t.y + r + 1, t.y + |lines|, t.y + r, t.y + |lines|);
      }
    }
  }

  // ---------------------------------------------------------------------------
  // Restrict gate and failures

  /** When the anchor's cell is not in a non-empty restrict string, nothing
      is drawn at all: the anchor cell is never written, so the gate stays shut. */
  lemma {:induction false} RestrictBlocksLine(g: Grid, t: Target, row: nat, line: string, c: nat)
    requires IsGrid(g, t.w, t.h) && c <= |line| && |line| <= t.maxLen
    requires IsValidPosition(Position(t.x, t.y), (t.w, t.h)) && t.restrict != [] && g[t.y][t.x] !in t.restrict
    ensures PlaceChars(g, t, row, line, c) == (g, Pass)
    decreases |line| - c
  {
    if c < |line| {
      RestrictBlocksLine(g, t, row, line, c + 1);
    }
  }

  lemma {:induction false} RestrictBlocksAll(g: Grid, t: Target, lines: seq<string>, r: nat)
    requires IsGrid(g, t.w, t.h) && r <= |lines| && LinesWithin(lines, t.maxLen)
    requires IsValidPosition(Position(t.x, t.y), (t.w, t.h)) && t.restrict != [] && g[t.y][t.x] !in t.restrict
    ensures PlaceLines(g, t, lines, r) == (g, Pass)
    decreases |lines| - r
  {
    if r < |lines| {
      RestrictBlocksLine(g, t, r, lines[r], 0);
      RestrictBlocksAll(g, t, lines, r + 1);
    }
  }

  /** Text drawn forward from the left with the anchor on the display never
      fails: every write is guarded by the right-edge test. */
  lemma {:induction false} ForwardLeftLineNeverFails(g: Grid, t: Target, row: nat, line: string, c: nat)
    requires IsGrid(g, t.w, t.h) && c <= |line| && |line| <= t.maxLen
    requires IsValidPosition(Position(t.x, t.y), (t.w, t.h)) && t.dir.action && t.dir.anchor == Left
    ensures PlaceChars(g, t, row, line, c).1 == Pass
    decreases |line| - c
  {
    if c < |line| {
      if Masked(t, line[c]) || (t.restrict != [] && g[t.y][t.x] !in t.restrict) {
        ForwardLeftLineNeverFails(g, t, row, line, c + 1);
      } else if t.x + c < t.w && t.y + row < t.h {
        ForwardLeftLineNeverFails(SetCell(g, Column(t, line, c), t.y + row, line[c]), t, row, line, c + 1);
      }
    }
  }

  lemma {:induction false} ForwardLeftNeverFails(g: Grid, t: Target, lines: seq<string>, r: nat)
    requires IsGrid(g, t.w, t.h) && r <= |lines| && LinesWithin(lines, t.maxLen)
    requires IsValidPosition(Position(t.x, t.y), (t.w, t.h)) && t.dir.action && t.dir.anchor == Left
    ensures PlaceLines(g, t, lines, r).1 == Pass
    decreases |lines| - r
  {
    if r < |lines| {
      ForwardLeftLineNeverFails(g, t, r, lines[r], 0);
      ForwardLeftNeverFails(PlaceChars(g, t, r, lines[r], 0).0, t, lines, r + 1);
    }
  }

  /** Right-anchored text is shifted right by the difference to the longest
      line, but only the unshifted column is tested against the right edge:
      "a" above "abcd" at x = 3 on a 5-wide display is written to column 6. */
  lemma RightAnchorOverflow()
    ensures var t := Target(3, 0, 5, 2, 4, Direction(true, false, Right), "", "");
      PlaceLines(Blank(5, 2, ' '), t, ["a", "abcd"], 0).1 == Fail(IndexOutOfRange)
  {
    var t := Target(3, 0, 5, 2, 4, Direction(true, false, Right), "", "");
    assert Column(t, "a", 0) == 6;
  }

  // ---------------------------------------------------------------------------
  // Unmasked, unrestricted forward text

  /** Overwrites row `y` from column `x` with `line[c..]`. */
  function Overwrite(g: Grid, x: int, y: int, line: string, c: nat): (r: Grid)
    requires 0 <= y < |g| && 0 <= x && c <= |line| && x + |line| <= |g[y]|
    ensures |r| == |g| && forall i :: 0 <= i < |g| ==> |r[i]| == |g[i]|
    ensures forall i, j :: 0 <= i < |g| && 0 <= j < |g[i]| ==>
      r[i][j] == if i == y && x + c <= j < x + |line| then line[j - x] else g[i][j]
    decreases |line| - c
  {
    if c == |line| then g else Overwrite(SetCell(g, x + c, y, line[c]), x, y, line, c + 1)
  }

  /** Without masks, forward from the left, a line that fits is copied into
      its row verbatim. */
  lemma {:induction false} ForwardLeftCopies(g: Grid, t: Target, row: nat, line: string, c: nat)
    requires IsGrid(g, t.w, t.h) && c <= |line| && |line| <= t.maxLen
    requires IsValidPosition(Position(t.x, t.y), (t.w, t.h)) && t.dir.action && t.dir.anchor == Left
    requires t.textMask == [] && t.restrict == [] && t.y + row < t.h && t.x + |line| <= t.w
    ensures PlaceChars(g, t, row, line, c) == (Overwrite(g, t.x, t.y + row, line, c), Pass)
    decreases |line| - c
  {
    if c < |line| {
      ForwardLeftCopies(SetCell(g, t.x + c, t.y + row, line[c]), t, row, line, c + 1);
    }
  }

  // ---------------------------------------------------------------------------
  // The whole of draw_str

  function TargetOf(w: int, h: int, x: int, y: int, o: StrOptions, lay: Layout): Target {
    Target(x, y, w, h, lay.maxLen, lay.dir, o.textMask, o.restrict)
  }

  /** `draw_str` on grid `g`: the new grid and the returned dictionary or the
      error. A failure during the drawing keeps the writes made before it. */
  function DrawStrSpec(g: Grid, w: int, h: int, x: int, y: int, text: seq<Nested<string>>, o: StrOptions, wrap: Wrapper): (res: (Grid, Result<DrawResult>))
    requires IsGrid(g, w, h)
    ensures IsGrid(res.0, w, h)
  {
    match Prepare(w, h, x, y, text, o, wrap)
    case Failure(e) => (g, Failure(e))
    case Success(lay) =>
      if o.calcOnly then (g, Success(lay.result))
      else
        LayoutBoxEncloses(w, h, x, y, text, o, wrap);
        var placed := PlaceLines(g, TargetOf(w, h, x, y, o, lay), lay.lines, 0);
        (placed.0, if placed.1.Pass? then Success(lay.result) else Failure(placed.1.error))
  }

  /** `calc_only` computes the result and leaves the display untouched. */
  lemma DrawStrCalcOnly(g: Grid, w: int, h: int, x: int, y: int, text: seq<Nested<string>>, o: StrOptions, wrap: Wrapper)
    requires IsGrid(g, w, h) && o.calcOnly
    ensures DrawStrSpec(g, w, h, x, y, text, o, wrap).0 == g
    ensures var p := Prepare(w, h, x, y, text, o, wrap);
      DrawStrSpec(g, w, h, x, y, text, o, wrap).1 == if p.Success? then Success(p.value.result) else Failure(p.error)
  {
  }

  /** An anchor left of or above the display passes the checks of
      `draw_str`; the drawing then stops at the first character it would
      write, with `InvalidPosition`, before changing any cell. */
  lemma OffDisplayAnchorFailsLate(g: Grid, w: int, h: int, x: int, y: int, lines: seq<string>, wrap: Wrapper)
    requires IsGrid(g, w, h) && (x < 0 || y < 0)
    requires lines != [] && lines[0] != [] && forall i :: 0 <= i < |lines| ==> AllPrintable(lines[i])
    ensures Validate(w, h, x, y, Items(lines), Defaults).Success?
    ensures DrawStrSpec(g, w, h, x, y, Items(lines), Defaults, wrap) == (g, Failure(InvalidPosition))
  {
    ValidateAccepts(w, h, x, y, Items(lines), Defaults);
    DefaultsLayout(w, h, x, y, lines, wrap);
    var lay := DefaultLayout(x, y, lines);
    OffDisplayFirstCharFails(g, TargetOf(w, h, x, y, Defaults, lay), lines);
    DrawStrPlaced(g, w, h, x, y, Items(lines), Defaults, wrap, lay);
  }

  /** Once the layout is computed, `draw_str` is the placement loop. */
  lemma DrawStrPlaced(g: Grid, w: int, h: int, x: int, y: int, text: seq<Nested<string>>, o: StrOptions, wrap: Wrapper, lay: Layout)
    requires IsGrid(g, w, h) && !o.calcOnly && Prepare(w, h, x, y, text, o, wrap) == Success(lay)
    ensures LinesWithin(lay.lines, lay.maxLen)
    ensures var placed := PlaceLines(g, TargetOf(w, h, x, y, o, lay), lay.lines, 0);
      DrawStrSpec(g, w, h, x, y, text, o, wrap) == (placed.0, if placed.1.Pass? then Success(lay.result) else Failure(placed.1.error))
  {
    LayoutBoxEncloses(w, h, x, y, text, o, wrap);
  }

  lemma OffDisplayFirstCharFails(g: Grid, t: Target, lines: seq<string>)
    requires IsGrid(g, t.w, t.h) && (t.x < 0 || t.y < 0) && t.textMask == []
    requires lines != [] && lines[0] != [] && LinesWithin(lines, t.maxLen)
    ensures PlaceLines(g, t, lines, 0) == (g, Fail(InvalidPosition))
  {
    assert PlaceChars(g, t, 0, lines[0], 0) == (g, Fail(InvalidPosition));
  }

  /** Every cell `draw_str` changes lies strictly inside the box it would
      return, and holds a character that is not in the text mask; a call
      refused by its checks changes nothing. */
  lemma DrawStrStaysInBox(g: Grid, w: int, h: int, x: int, y: int, text: seq<Nested<string>>, o: StrOptions, wrap: Wrapper)
    requires IsGrid(g, w, h)
    ensures var r := DrawStrSpec(g, w, h, x, y, text, o, wrap).0;
      var p := Prepare(w, h, x, y, text, o, wrap);
      forall i, j :: 0 <= i < h && 0 <= j < w && r[i][j] != g[i][j] ==>
        p.Success? &&
        var b := p.value.result.edge;
        b.top < i < b.bottom && b.left < j < b.right && !(o.textMask != [] && r[i][j] in o.textMask)
  {
    var p := Prepare(w, h, x, y, text, o, wrap);
    if p.Success? && !o.calcOnly {
      LayoutBoxEncloses(w, h, x, y, text, o, wrap);
      var t := TargetOf(w, h, x, y, o, p.value);
      PlaceLinesInside(g, t, p.value.lines, 0);
    }
  }

  /** A restrict string that the anchor's cell is not in blocks the whole call. */
  lemma DrawStrRestrictBlocks(g: Grid, w: int, h: int, x: int, y: int, text: seq<Nested<string>>, o: StrOptions, wrap: Wrapper)
    requires IsGrid(g, w, h) && IsValidPosition(Position(x, y), (w, h))
    requires o.restrict != [] && g[y][x] !in o.restrict
    ensures DrawStrSpec(g, w, h, x, y, text, o, wrap).0 == g
  {
    var p := Prepare(w, h, x, y, text, o, wrap);
    if p.Success? && !o.calcOnly {
      LayoutBoxEncloses(w, h, x, y, text, o, wrap);
      RestrictBlocksAll(g, TargetOf(w, h, x, y, o, p.value), p.value.lines, 0);
    }
  }
}
