/** The `Display` class of TexUI.py: a grid of characters that the drawing
    methods update in place. Each method is proved against the specification
    function of the operation (`Drawing`, `Placement`), so the lemmas proved
    there hold of the class. The terminal size is a constructor argument. */
module TexUI {
  import opened Errors
  import opened DatatypeExtend
  import opened HelperFunction
  import opened Grid
  import opened Bresenham
  import opened TextLayout
  import opened Placement
  import opened Drawing

  /** A `width` or `height` argument: "full" or a number of cells. */
  datatype Size = Full | Cells(n: int)

  function Resolve(s: Size, full: int): int {
    if s.Full? then full else s.n
  }

  /** The size check of `__init__`: within the terminal (a width equal to
      the column count is let through), unless the bound is switched off, in
      which case only negative sizes are refused. */
  function CheckSize(w: int, h: int, noTerminalBound: bool, columns: int, lines: int): (r: Outcome)
    ensures r.Fail? ==> r.error == InvalidSize
  {
    if !IsValidPosition(Position(w, h), (columns + 1, lines)) && (!noTerminalBound || w < 0 || h < 0) then Fail(InvalidSize)
    else Pass
  }

  /** With the terminal bound on, a size passes exactly when it fits the
      terminal less the line kept for the newline; with it off, exactly when
      neither side is negative. */
  lemma CheckSizeBounds(w: int, h: int, noTerminalBound: bool, columns: int, lines: int)
    ensures !noTerminalBound ==> (CheckSize(w, h, noTerminalBound, columns, lines).Pass? <==> 0 <= w <= columns && 0 <= h <= lines - 1)
    ensures noTerminalBound ==> (CheckSize(w, h, noTerminalBound, columns, lines).Pass? <==> w >= 0 && h >= 0)
  {
  }

  class Display {
    var content: Grid
    const width: nat
    const height: nat
    const defaultFill: char
    const terminalWidth: int
    const terminalHeight: int

    ghost predicate Valid()
      reads this
    {
      IsGrid(content, width, height)
    }

    constructor Init(content: Grid, width: nat, height: nat, defaultFill: char, terminalWidth: int, terminalHeight: int)
      requires IsGrid(content, width, height)
      ensures Valid()
      ensures this.content == content && this.width == width && this.height == height
      ensures this.defaultFill == defaultFill && this.terminalWidth == terminalWidth && this.terminalHeight == terminalHeight
    {
      this.content := content;
      this.width := width;
      this.height := height;
      this.defaultFill := defaultFill;
      this.terminalWidth := terminalWidth;
      this.terminalHeight := terminalHeight;
    }

    /** `Display(width, height, default_fill, no_terminal_bound)` on a
        terminal of `columns` by `lines`: "full" is the column count, or the
        line count less one. The size is checked before the fill character. */
    static method Create(width: Size, height: Size, defaultFill: string, noTerminalBound: bool, columns: int, lines: int)
      returns (r: Result<Display>)
      ensures var w, h := Resolve(width, columns), Resolve(height, lines - 1);
        && (r.Success? <==> CheckSize(w, h, noTerminalBound, columns, lines).Pass? && |defaultFill| == 1)
        && (r.Failure? ==> r.error == if CheckSize(w, h, noTerminalBound, columns, lines).Fail? then InvalidSize else InvalidCharacter)
        && (r.Success? ==>
              && fresh(r.value) && r.value.Valid() && r.value.width == w && r.value.height == h
              && r.value.content == Blank(w, h, defaultFill[0])
              && r.value.terminalWidth == columns && r.value.terminalHeight == lines - 1)
    {
      var w, h := Resolve(width, columns), Resolve(height, lines - 1);
      var check := CheckSize(w, h, noTerminalBound, columns, lines);
      if check.Fail? {
        return Failure(check.error);
      }
      var fill := CharacterOf(defaultFill);
      if fill.Failure? {
        return Failure(fill.error);
      }
      var d := new Display.Init(Blank(w, h, fill.value), w, h, fill.value, columns, lines - 1);
      return Success(d);
    }

    /** `clear`: "screen" and "all" refill the grid with the default fill
        character; anything else is refused. */
    method Clear(reset: string) returns (out: Outcome)
      requires Valid()
      modifies this
      ensures Valid()
      ensures out.Pass? <==> reset == "screen" || reset == "all"
      ensures out.Pass? ==> content == Blank(width, height, defaultFill)
      ensures out.Fail? ==> out.error == InvalidReset && content == old(content)
    {
      if reset == "screen" || reset == "all" {
        content := Blank(width, height, defaultFill);
        return Pass;
      }
      return Fail(InvalidReset);
    }

    /** `item in display`: some cell holds exactly `item`. */
    method Contains(item: string) returns (found: bool)
      requires Valid()
      ensures found <==> exists i, j :: 0 <= i < height && 0 <= j < width && [content[i][j]] == item
    {
      var r := 0;
      while r < |content|
        invariant 0 <= r <= |content|
        invariant forall i, j :: 0 <= i < r && 0 <= j < width ==> [content[i][j]] != item
      {
        if |item| == 1 && item[0] in content[r] {
          var j :| 0 <= j < |content[r]| && content[r][j] == item[0];
          assert [content[r][j]] == item;
          return true;
        }
        r := r + 1;
      }
      return false;
    }

    /** `get_char`: the cell at (x, y), or a failure off the display. */
    function GetChar(x: int, y: int): (r: Result<char>)
      reads this
      requires Valid()
      ensures r.Success? <==> 0 <= x < width && 0 <= y < height
      ensures r.Success? ==> r.value == content[y][x]
      ensures r.Failure? ==> r.error == InvalidPosition
    {
      if IsValidPosition(Position(x, y), (width, height)) then Success(content[y][x]) else Failure(InvalidPosition)
    }

    /** `draw_char`. */
    method DrawChar(x: int, y: int, ch: string, restrict: string) returns (out: Outcome)
      requires Valid()
      modifies this
      ensures Valid()
      ensures (content, out) == DrawCharSpec(old(content), width, height, x, y, ch, restrict)
    {
      var c := CharacterOf(ch);
      if c.Failure? {
        return Fail(c.error);
      }
      if restrict != [] && !AllPrintable(restrict) {
        return Fail(InvalidMask);
      }
      var cur := GetChar(x, y);
      if cur.Failure? {
        return Fail(cur.error);
      }
      if cur.value in restrict || restrict == [] {
        content := SetCell(content, x, y, c.value);
      }
      return Pass;
    }

    /** `draw_line` with a non-empty pattern: Bresenham's loop from (x1, y1),
        writing pattern character `c % |pattern|` at step `c`, skipping cells
        off the display or refused by the restrict string, and stopping at
        (x2, y2) or once the pen is right of or below the display. */
    method DrawLine(x1: int, y1: int, x2: int, y2: int, pattern: string, restrict: string) returns (out: Outcome)
      requires Valid() && |pattern| > 0
      modifies this
      ensures Valid()
      ensures (content, out) == LineSpec(old(content), width, height, Segment(x1, y1, x2, y2), pattern, restrict)
    {
      if !AllPrintable(pattern) {
        return Fail(InvalidPattern);
      }
      if restrict != [] && !AllPrintable(restrict) {
        return Fail(InvalidMask);
      }
      var s := Segment(x1, y1, x2, y2);
      var dx: int, dy: int := s.Dx(), s.Dy();
      var sx, sy := s.Sx(), s.Sy();
      var err := dx - dy;
      var x, y := x1, y1;
      var c := 0;
      StartOnTrack(s);
      assert Pen(x, y, err) == Start(s);
      assert LinePoints(s, width, height) == Trace(s, Pen(x, y, err), width, height);
      while true
        invariant Valid()
        invariant OnTrack(s, Pen(x, y, err))
        invariant PaintLine(content, width, height, Trace(s, Pen(x, y, err), width, height), pattern, restrict, c)
               == PaintLine(old(content), width, height, LinePoints(s, width, height), pattern, restrict, 0)
        decreases Remaining(s, Pen(x, y, err))
      {
        ghost var p := Pen(x, y, err);
        ghost var before := content;
        TryPaint(x, y, pattern[c % |pattern|], restrict);
        if (x == x2 && y == y2) || x + 1 > width || y + 1 > height {
          PaintTraceStep(before, width, height, s, p, pattern, restrict, c);
          return Pass;
        }
        var e2 := 2 * err;
        if e2 > -dy {
          err := err - dy;
          x := x + sx;
        }
        if e2 < dx {
          err := err + dx;
          y := y + sy;
        }
        assert Pen(x, y, err) == Advance(s, p);
        PaintTraceStep(before, width, height, s, p, pattern, restrict, c);
        c := c + 1;
      }
    }

    /** The `try` block of the loop of `draw_line`: the cell is written when
        it is on the display and the restrict string allows it; an invalid
        position is passed over. */
    method TryPaint(x: int, y: int, ch: char, restrict: string)
      requires Valid()
      modifies this
      ensures Valid()
      ensures content == PaintPoint(old(content), width, height, Position(x, y), ch, restrict)
    {
      var cur := GetChar(x, y);
      if cur.Success? && (cur.value in restrict || restrict == []) {
        content := SetCell(content, x, y, ch);
      }
    }

    /** `draw_str`: the layout pipeline, then the placement loop over the
        lines and their characters. */
    method DrawStr(x: int, y: int, text: seq<Nested<string>>, o: StrOptions, wrap: Wrapper) returns (r: Result<DrawResult>)
      requires Valid()
      modifies this
      ensures Valid()
      ensures (content, r) == DrawStrSpec(old(content), width, height, x, y, text, o, wrap)
    {
      var prep := Prepare(width, height, x, y, text, o, wrap);
      if prep.Failure? {
        return Failure(prep.error);
      }
      var lay := prep.value;
      if o.calcOnly {
        return Success(lay.result);
      }
      LayoutBoxEncloses(width, height, x, y, text, o, wrap);
      var placed := PlaceAll(TargetOf(width, height, x, y, o, lay), lay.lines);
      return if placed.Pass? then Success(lay.result) else Failure(placed.error);
    }

    /** The drawing loop of `draw_str` over the lines; the first failure
        ends it. */
    method PlaceAll(t: Target, lines: seq<string>) returns (out: Outcome)
      requires Valid() && t.w == width && t.h == height && LinesWithin(lines, t.maxLen)
      modifies this
      ensures Valid()
      ensures (content, out) == PlaceLines(old(content), t, lines, 0)
    {
      var row := 0;
      while row < |lines|
        invariant Valid() && row <= |lines|
        invariant PlaceLines(content, t, lines, row) == PlaceLines(old(content), t, lines, 0)
      {
        out := PlaceRow(t, row, lines[row]);
        if out.Fail? {
          return;
        }
        row := row + 1;
      }
      return Pass;
    }

    /** The drawing loop of `draw_str` over the characters of one line. */
    method PlaceRow(t: Target, row: nat, line: string) returns (out: Outcome)
      requires Valid() && t.w == width && t.h == height && |line| <= t.maxLen
      modifies this
      ensures Valid()
      ensures (content, out) == PlaceChars(old(content), t, row, line, 0)
    {
      var c := 0;
      while c < |line|
        invariant Valid() && c <= |line|
        invariant PlaceChars(content, t, row, line, c) == PlaceChars(old(content), t, row, line, 0)
      {
        var ch := line[c];
        if Masked(t, ch) {
          c := c + 1;
          continue;
        }
        var anchor := GetChar(t.x, t.y);
        if anchor.Failure? {
          return Fail(anchor.error);
        }
        if t.restrict != [] && anchor.value !in t.restrict {
          c := c + 1;
          continue;
        }
        if t.x + c >= width || t.y + row >= height {
          return Pass;
        }
        var col := Column(t, line, c);
        if !t.dir.action && col < 0 {
          c := c + 1;
          continue;
        }
        if col >= width {
          return Fail(IndexOutOfRange);
        }
        content := SetCell(content, col, t.y + row, ch);
        c := c + 1;
      }
      return Pass;
    }

    /** `draw_box`: the style check, four lines (a refused line ends the
        call), then the four corners, each restricted to the restrict string
        followed by the style, refusals ignored. */
    method DrawBox(x1: int, y1: int, x2: int, y2: int, style: string, restrict: string) returns (out: Outcome)
      requires Valid()
      modifies this
      ensures Valid()
      ensures (content, out) == BoxSpec(old(content), width, height, x1, y1, x2, y2, style, restrict)
    {
      var sm := StyleMapOf(style);
      if sm.Failure? {
        return Fail(sm.error);
      }
      var m := sm.value;
      out := DrawLine(x1, y1, x2, y1, [m.top], restrict);
      if out.Fail? {
        return;
      }
      out := DrawLine(x1, y2, x2, y2, [m.bottom], restrict);
      if out.Fail? {
        return;
      }
      out := DrawLine(x1, y1, x1, y2, [m.left], restrict);
      if out.Fail? {
        return;
      }
      out := DrawLine(x2, y1, x2, y2, [m.right], restrict);
      if out.Fail? {
        return;
      }
      var corners := [(x1, y1, m.tl), (x1, y2, m.bl), (x2, y1, m.tr), (x2, y2, m.br)];
      ghost var lined := content;
      var k := 0;
      while k < |corners|
        invariant Valid() && k <= |corners|
        invariant Corners(content, width, height, corners[k..], restrict + style) == Corners(lined, width, height, corners, restrict + style)
      {
        assert corners[k..][1..] == corners[k + 1..];
        var _ := DrawChar(corners[k].0, corners[k].1, [corners[k].2], restrict + style);
        k := k + 1;
      }
      return Pass;
    }

    /** `export_display`: a new display holding the rectangle between the two
        corners, read cell by cell. */
    method ExportDisplay(x1: int, y1: int, x2: int, y2: int) returns (r: Result<Display>)
      requires Valid()
      ensures var e := ExportSpec(content, width, height, x1, y1, x2, y2);
        && (r.Success? <==> e.Success?)
        && (r.Failure? ==> r.error == e.error)
        && (r.Success? ==>
              && fresh(r.value) && r.value.Valid() && r.value.content == e.value
              && r.value.width == Max(x1, x2) - Min(x1, x2) + 1 && r.value.height == Max(y1, y2) - Min(y1, y2) + 1
              && r.value.defaultFill == ' '
              && r.value.terminalWidth == terminalWidth && r.value.terminalHeight == terminalHeight)
    {
      var left, top, right, bottom := x1, y1, x2, y2;
      if left > right {
        left, right := right, left;
      }
      if top > bottom {
        top, bottom := bottom, top;
      }
      if !IsValidPosition(Position(left, top), (width, height)) {
        return Failure(InvalidPosition);
      }
      if !IsValidPosition(Position(right, bottom), (width, height)) {
        return Failure(InvalidPosition);
      }
      var out: Grid := [];
      var yy := top;
      while yy <= bottom
        invariant top <= yy <= bottom + 1
        invariant IsGrid(out, right - left + 1, yy - top)
        invariant forall i, j :: 0 <= i < |out| && 0 <= j < |out[i]| ==> out[i][j] == content[top + i][left + j]
      {
        var row: seq<char> := [];
        var xx := left;
        while xx <= right
          invariant left <= xx <= right + 1
          invariant |row| == xx - left
          invariant forall j :: 0 <= j < |row| ==> row[j] == content[yy][left + j]
        {
          row := row + [GetChar(xx, yy).value];
          xx := xx + 1;
        }
        out := out + [row];
        yy := yy + 1;
      }
      var e := ExportSpec(content, width, height, x1, y1, x2, y2).value;
      SameCells(out, e);
      var d := new Display.Init(out, right - left + 1, bottom - top + 1, ' ', terminalWidth, terminalHeight);
      return Success(d);
    }

    /** `merge_display`: the anchor and mask checks, then each row of `other`
        drawn as a string one row further down; a ValueError ends the merge
        quietly. Merging a display into itself reads each row as changed by
        the rows before it. */
    method MergeDisplay(x: int, y: int, other: Display, mask: string, restrict: string) returns (out: Outcome)
      requires Valid() && other.Valid()
      modifies this
      ensures Valid()
      ensures (content, out) == MergeSpec(old(content), width, height, x, y, old(other.content), other == this, mask, restrict)
    {
      if !IsValidPosition(Position(x, y), (width, height)) && x >= 0 && y >= 0 {
        return Fail(InvalidPosition);
      }
      if mask != [] && !AllPrintable(mask) {
        return Fail(InvalidMask);
      }
      if restrict != [] && !AllPrintable(restrict) {
        return Fail(InvalidMask);
      }
      ghost var src := old(other.content);
      ghost var selfMerge := other == this;
      ghost var goal := MergeSpec(old(content), width, height, x, y, src, selfMerge, mask, restrict);
      var i := 0;
      while i < |other.content|
        invariant Valid()
        invariant !selfMerge ==> other.content == src
        invariant i <= |other.content|
        invariant MergeRows(content, width, height, x, y, src, selfMerge, mask, restrict, i) == goal
      {
        ghost var before := content;
        var row := other.content[i];
        var r := DrawStr(x, RowLine(y, i), [Item(row)], MergeOptions(mask, restrict), NoWrap);
        MergeRowsStep(before, width, height, x, y, src, selfMerge, mask, restrict, i, row, content, r);
        if r.Failure? {
          if r.error.IsValueError() {
            return Pass;
          }
          return Fail(r.error);
        }
        i := i + 1;
      }
      return Pass;
    }

    /** `fill`: after the checks, a breadth-first flood from (x, y) over the
        cells holding the seed's character or one of `ignore`; each cell is
        written before it is queued. */
    method Fill(x: int, y: int, ch: string, ignore: string, neighbour: int) returns (out: Outcome)
      requires Valid() && 0 <= x < width && 0 <= y < height
      modifies this
      ensures Valid()
      ensures out == FillCheck(ch, ignore, neighbour)
      ensures out.Fail? ==> content == old(content)
      ensures out.Pass? ==>
        var target := [old(content)[y][x]] + ignore;
        if ch[0] in target then content == old(content)
        else && FillSound(old(content), content, target, ch[0])
             && FillClosed(old(content), content, target, Directions(neighbour))
             && content[y][x] == ch[0]
    {
      out := FillCheck(ch, ignore, neighbour);
      if out.Fail? {
        return;
      }
      var c := ch[0];
      var target := [content[y][x]] + ignore;
      if c in target {
        return;
      }
      ghost var before := content;
      var queue := [(y, x)];
      var dirs := Directions(neighbour);
      while |queue| > 0
        invariant Valid() && SameShape(before, content)
        invariant FillSound(before, content, target, c) && Queued(before, target, queue)
        invariant ClosedOutside(before, content, target, dirs, queue)
        invariant content[y][x] == c || (y, x) in queue
        decreases CountIn(content, target), |queue|
      {
        ghost var count := CountIn(content, target);
        PopStep(before, content, target, c, dirs, queue);
        var q := queue[0];
        queue := queue[1..];
        content := SetCell(content, q.1, q.0, c);
        ghost var rest := queue;
        queue := Spread(q, dirs, target, c, queue, before);
        assert content[y][x] == c || (y, x) in [q] + queue by {
          if (y, x) in rest {
            var i :| 0 <= i < |rest| && rest[i] == (y, x);
            assert queue[i] == (y, x);
          }
        }
        ClosedPop(before, content, target, dirs, q, queue);
      }
    }

    /** The inner loop of `fill`: each neighbour of `q` on the grid that
        holds a target character is written and queued. */
    method Spread(q: (int, int), dirs: seq<(int, int)>, target: string, c: char, queue: seq<(int, int)>, ghost before: Grid)
      returns (queue': seq<(int, int)>)
      requires Valid() && SameShape(before, content) && c !in target && InGrid(content, q.0, q.1)
      requires FillSound(before, content, target, c) && Queued(before, target, queue)
      requires ClosedOutside(before, content, target, dirs, [q] + queue)
      modifies this
      ensures Valid() && SameShape(before, content)
      ensures FillSound(before, content, target, c) && Queued(before, target, queue')
      ensures ClosedOutside(before, content, target, dirs, [q] + queue')
      ensures NeighboursClear(before, content, target, dirs, q, |dirs|)
      ensures |queue'| >= |queue| && queue'[..|queue|] == queue
      ensures CountIn(content, target) + (|queue'| - |queue|) == CountIn(old(content), target)
      ensures forall i, j :: InGrid(before, i, j) && old(content)[i][j] == c ==> content[i][j] == c
    {
      queue' := queue;
      var k := 0;
      while k < |dirs|
        invariant Valid() && SameShape(before, content) && 0 <= k <= |dirs|
        invariant FillSound(before, content, target, c) && Queued(before, target, queue')
        invariant ClosedOutside(before, content, target, dirs, [q] + queue')
        invariant NeighboursClear(before, content, target, dirs, q, k)
        invariant |queue'| >= |queue| && queue'[..|queue|] == queue
        invariant CountIn(content, target) + (|queue'| - |queue|) == CountIn(old(content), target)
        invariant forall i, j :: InGrid(before, i, j) && old(content)[i][j] == c ==> content[i][j] == c
      {
        ghost var g := content;
        queue' := Visit(q, (q.0 + dirs[k].0, q.1 + dirs[k].1), dirs, target, c, queue', before);
        NeighbourStep(before, g, content, target, dirs, q, k);
        k := k + 1;
      }
    }

    /** One pass of the inner loop of `fill`: neighbour `n` of `q`, when on
        the display and holding a target character, is written and queued. */
    method Visit(q: (int, int), n: (int, int), ghost dirs: seq<(int, int)>, target: string, c: char, queue: seq<(int, int)>, ghost before: Grid)
      returns (queue': seq<(int, int)>)
      requires Valid() && SameShape(before, content) && c !in target
      requires FillSound(before, content, target, c) && Queued(before, target, queue)
      requires ClosedOutside(before, content, target, dirs, [q] + queue)
      modifies this
      ensures Valid() && SameShape(before, content)
      ensures FillSound(before, content, target, c) && Queued(before, target, queue')
      ensures ClosedOutside(before, content, target, dirs, [q] + queue')
      ensures InGrid(before, n.0, n.1) ==> content[n.0][n.1] !in target
      ensures forall i, j :: InGrid(before, i, j) && old(content)[i][j] !in target ==> content[i][j] !in target
      ensures queue' == queue || queue' == queue + [n]
      ensures CountIn(content, target) + (|queue'| - |queue|) == CountIn(old(content), target)
    {
      var ny, nx := n.0, n.1;
      if 0 <= ny < |content| && 0 <= nx < |content[0]| && content[ny][nx] in target {
        EnqueueStep(before, content, target, c, dirs, q, queue, n);
        content := SetCell(content, nx, ny, c);
        queue' := queue + [n];
      } else {
        queue' := queue;
      }
    }
  }
}
