/** The text pipeline of `Display.draw_str` (TexUI.py:303-687): argument
    validation, cleaning, indentation, width limits, the line limit, the
    drawing direction, ellipsis marking and the bordering box of the result.
    Nothing here touches the display; placing the characters is `Placement`. */
module TextLayout {
  import opened Errors
  import opened DatatypeExtend
  import opened HelperFunction
  import opened Grid

  predicate LinesWithin(lines: seq<string>, n: int) {
    forall i :: 0 <= i < |lines| ==> |lines[i]| <= n
  }

  /** `textwrap.wrap` (imported as `smart_wrap`). Its word-breaking rules are
      not modelled; all the layout relies on is that, for a positive width,
      no line it returns is longer than the width. */
  type Wrapper = f: (string, int) -> seq<string> | forall s: string, n: int :: n > 0 ==> LinesWithin(f(s, n), n)
    witness (s: string, n: int) => []

  // ---------------------------------------------------------------------------
  // Options

  /** `max_width`: an integer cuts lines, `"preserve-<n>"` wraps at words. */
  datatype MaxWidth = Cut(width: int) | WordWrap(width: int)

  /** `edge_of_screen`: "default", "newline" or "preserve". */
  datatype EdgePolicy = Stop | Newline | PreserveWords

  datatype Anchor = Left | Right

  /** The `foward` dictionary as given: each key present or absent. */
  datatype Forward = Forward(action: Option<bool>, preserve: Option<bool>, anchor: Option<Anchor>)

  const NoForward := Forward(None, None, None)

  /** The `foward` dictionary once its defaults are filled in. */
  datatype Direction = Direction(action: bool, preserve: bool, anchor: Anchor)

  /** `ellipsis["at"]`: "all", "max line" or "screen edge". */
  datatype Trigger = All | MaxLine | ScreenEdge

  /** The `ellipsis` dictionary: empty, or a symbol, a count and a trigger. */
  datatype EllipsisArg = NoEllipsis | Ellipsis(symbol: string, count: int, at: Trigger)

  datatype StrOptions = StrOptions(
    maxWidth: MaxWidth,
    maxLine: int,
    edge: EdgePolicy,
    textMask: string,
    restrict: string,
    forward: Forward,
    ellipsis: EllipsisArg,
    indent: int,
    calcOnly: bool)

  /** The keyword defaults of `draw_str`. */
  const Defaults := StrOptions(Cut(0), 0, Stop, "", "", NoForward, NoEllipsis, 0, false)

  /** `result["edge"]`: left, top, right and bottom sides around the text. */
  datatype Box = Box(left: int, top: int, right: int, bottom: int)

  /** The dictionary `draw_str` returns: the box and the lines as seen
      (`viewed_text`). */
  datatype DrawResult = DrawResult(edge: Box, text: seq<string>)

  /** Everything the placement loop needs: the lines to draw, the longest
      line's length, the direction and the value to return. */
  datatype Layout = Layout(lines: seq<string>, maxLen: nat, dir: Direction, result: DrawResult)

  // ---------------------------------------------------------------------------
  // Validation helpers

  function OrElse<T>(o: Option<T>, d: T): T {
    match o
    case None => d
    case Some(v) => v
  }

  /** The `foward` checks: a non-empty dictionary must name `action`; missing
      keys default to action True, preserve False, anchour "left". */
  function DirectionOf(f: Forward): (r: Result<Direction>)
    ensures r.Failure? <==> f != NoForward && f.action.None?
    ensures r.Failure? ==> r.error == InvalidForward
    ensures f == NoForward ==> r == Success(Direction(true, false, Left))
    ensures r.Success? ==> (f.action == Some(r.value.action)) || (f == NoForward)
    ensures r.Success? ==>
      && r.value.action == (f.action != Some(false))
      && r.value.preserve == (f.preserve == Some(true))
      && r.value.anchor == (if f.anchor == Some(Right) then Right else Left)
  {
    if f != NoForward && f.action.None? then Failure(InvalidForward)
    else
      assert f.anchor.Some? ==> f.anchor.value.Left? || f.anchor.value.Right?;
      Success(Direction(OrElse(f.action, true), OrElse(f.preserve, false), OrElse(f.anchor, Left)))
  }

  /** The `ellipsis` checks: the symbol must be one printable character and
      the count positive. */
  function CheckEllipsis(e: EllipsisArg): (r: Outcome)
    ensures r.Pass? <==> e.NoEllipsis? || (|e.symbol| == 1 && IsPrintable(e.symbol[0]) && e.count > 0)
    ensures e.Ellipsis? && |e.symbol| != 1 ==> r == Fail(InvalidCharacter)
  {
    match e
    case NoEllipsis => Pass
    case Ellipsis(symbol, count, _) =>
      match CharacterOf(symbol)
      case Failure(err) => Fail(err)
      case Success(c) =>
        if !IsPrintable(c) then Fail(InvalidEllipsis)
        else if count <= 0 then Fail(InvalidEllipsis)
        else Pass
  }

  // ---------------------------------------------------------------------------
  // Cleaning

  /** `line.split("\n")`. */
  function SplitLines(s: string): (r: seq<string>)
    ensures |r| >= 1
    ensures forall i :: 0 <= i < |r| ==> '\n' !in r[i]
    decreases |s|
  {
    if s == [] then [""]
    else
      var rest := SplitLines(s[1..]);
      if s[0] == '\n' then [""] + rest else [[s[0]] + rest[0]] + rest[1..]
  }

  /** `"\n".join(lines)`. */
  function JoinLines(lines: seq<string>): string
    requires |lines| >= 1
  {
    if |lines| == 1 then lines[0] else lines[0] + "\n" + JoinLines(lines[1..])
  }

  /** Splitting loses nothing: joining the parts gives the string back. */
  lemma {:induction false} SplitJoin(s: string)
    ensures JoinLines(SplitLines(s)) == s
    decreases |s|
  {
    if s != [] {
      SplitJoin(s[1..]);
      var rest := SplitLines(s[1..]);
      if s[0] != '\n' {
        if |rest| > 1 {
          assert ([[s[0]] + rest[0]] + rest[1..])[1..] == rest[1..];
        }
      }
      assert s == [s[0]] + s[1..];
    }
  }

  lemma {:induction false} SplitPrefix(a: string, t: string)
    requires '\n' !in a
    ensures SplitLines(a + t) == [a + SplitLines(t)[0]] + SplitLines(t)[1..]
    decreases |a|
  {
    if a != [] {
      assert (a + t)[1..] == a[1..] + t;
      assert (a + t)[0] == a[0];
      SplitPrefix(a[1..], t);
      assert [a[0]] + (a[1..] + SplitLines(t)[0]) == a + SplitLines(t)[0];
    } else {
      assert a + t == t;
      assert SplitLines(t) == [SplitLines(t)[0]] + SplitLines(t)[1..];
      assert a + SplitLines(t)[0] == SplitLines(t)[0];
    }
  }

  /** Joining newline-free lines and splitting again gives the lines back. */
  lemma {:induction false} JoinSplit(lines: seq<string>)
    requires |lines| >= 1
    requires forall i :: 0 <= i < |lines| ==> '\n' !in lines[i]
    ensures SplitLines(JoinLines(lines)) == lines
    decreases |lines|
  {
    if |lines| == 1 {
      SplitPrefix(lines[0], "");
      assert lines[0] + "" == lines[0];
    } else {
      JoinSplit(lines[1..]);
      var rest := JoinLines(lines[1..]);
      assert lines[0] + "\n" + rest == lines[0] + ("\n" + rest);
      SplitPrefix(lines[0], "\n" + rest);
      assert ("\n" + rest)[1..] == rest;
      assert lines[0] + "" == lines[0];
      assert lines == [lines[0]] + lines[1..];
    }
  }

  /** The printable characters of `line`, in order (the cleaning comprehension). */
  function Printables(line: string): (r: string)
    ensures AllPrintable(r) && |r| <= |line|
    ensures forall c :: c in r <==> c in line && IsPrintable(c)
    ensures AllPrintable(line) ==> r == line
    decreases |line|
  {
    if line == [] then []
    else
      var rest := Printables(line[1..]);
      assert line == [line[0]] + line[1..];
      if IsPrintable(line[0]) then [line[0]] + rest else rest
  }

  /** Stripping works character by character: it keeps a printable character
      and drops any other ... */
  lemma PrintablesChar(c: char)
    ensures Printables([c]) == if IsPrintable(c) then [c] else []
  {
  }

  /** ... and distributes over concatenation, so the kept characters stay in
      their order. */
  lemma {:induction false} PrintablesAppend(a: string, b: string)
    ensures Printables(a + b) == Printables(a) + Printables(b)
    decreases |a|
  {
    if a == [] {
      assert a + b == b;
    } else {
      assert (a + b)[0] == a[0] && (a + b)[1..] == a[1..] + b;
      PrintablesAppend(a[1..], b);
    }
  }

  function SplitAll(text: seq<string>): (r: seq<seq<string>>)
    ensures |r| == |text| && forall i :: 0 <= i < |text| ==> r[i] == SplitLines(text[i])
  {
    seq(|text|, i requires 0 <= i < |text| => SplitLines(text[i]))
  }

  /** Lines split on newlines (and flattened), then stripped of every
      non-printable character. */
  function CleanLines(text: seq<string>): (r: seq<string>)
    ensures forall i :: 0 <= i < |r| ==> AllPrintable(r[i])
  {
    var split := FlattenList(Nest2(SplitAll(text)));
    seq(|split|, i requires 0 <= i < |split| => Printables(split[i]))
  }

  /** Text that is already clean comes out of the cleaning unchanged. */
  lemma {:induction false} CleanKeepsPrintable(text: seq<string>)
    requires forall i :: 0 <= i < |text| ==> AllPrintable(text[i])
    ensures CleanLines(text) == text
  {
    var parts := SplitAll(text);
    FlattenNest2(parts);
    forall i | 0 <= i < |text| ensures parts[i] == [text[i]] {
      assert !IsPrintable('\n');
      JoinSplit([text[i]]);
    }
    ConcatSingletons(parts, text);
  }

  /** One string gives one cleaned line per newline-separated part, in
      order, each stripped of its non-printable characters. */
  lemma CleanLinesOne(s: string)
    ensures var parts := SplitLines(s);
      && |CleanLines([s])| == |parts|
      && forall k :: 0 <= k < |parts| ==> CleanLines([s])[k] == Printables(parts[k])
  {
    var all := SplitAll([s]);
    FlattenNest2(all);
    assert all == [SplitLines(s)];
    assert Concat(all) == SplitLines(s) + Concat(all[1..]);
  }

  /** Cleaning works string by string: the lines of `a + b` are those of `a`
      followed by those of `b`. */
  lemma CleanLinesAppend(a: seq<string>, b: seq<string>)
    ensures CleanLines(a + b) == CleanLines(a) + CleanLines(b)
  {
    assert SplitAll(a + b) == SplitAll(a) + SplitAll(b);
    FlattenNest2(SplitAll(a + b));
    FlattenNest2(SplitAll(a));
    FlattenNest2(SplitAll(b));
    ConcatAppend(SplitAll(a), SplitAll(b));
  }

  lemma {:induction false} ConcatSingletons(parts: seq<seq<string>>, text: seq<string>)
    requires |parts| == |text| && forall i :: 0 <= i < |text| ==> parts[i] == [text[i]]
    ensures Concat(parts) == text
  {
    if text != [] {
      ConcatSingletons(parts[1..], text[1..]);
    }
  }

  // ---------------------------------------------------------------------------
  // Indent, width and direction

  function Repeat(c: char, n: nat): (r: string)
    ensures |r| == n && forall i :: 0 <= i < n ==> r[i] == c
  {
    seq(n, _ => c)
  }

  /** `" " * indent + line` for every non-empty line when anchored left. */
  function Indent(lines: seq<string>, indent: nat, anchor: Anchor): (r: seq<string>)
    ensures |r| == |lines|
    ensures forall i :: 0 <= i < |lines| && anchor == Left && lines[i] != [] ==>
      |r[i]| == indent + |lines[i]| && r[i][indent..] == lines[i] && forall k :: 0 <= k < indent ==> r[i][k] == ' '
    ensures forall i :: 0 <= i < |lines| && (anchor == Right || lines[i] == []) ==> r[i] == lines[i]
  {
    seq(|lines|, i requires 0 <= i < |lines| =>
      if anchor == Left && lines[i] != [] then Repeat(' ', indent) + lines[i] else lines[i])
  }

  /** An empty result of wrapping becomes one empty line. */
  function NonEmpty(parts: seq<string>): seq<string> {
    if parts == [] then [""] else parts
  }

  /** One line of `apply_max_width`: textwrap, which rejects a non-positive
      width, or `chunk_split`. */
  function WrapLine(line: string, width: int, preserve: bool, wrap: Wrapper): Result<seq<string>> {
    if preserve then
      if width <= 0 then Failure(InvalidWidth) else Success(NonEmpty(wrap(line, width)))
    else
      match ChunkSplit(line, width)
      case Failure(e) => Failure(e)
      case Success(chunks) => Success(NonEmpty(chunks))
  }

  /** The comprehension over the lines; the first failure propagates. */
  function WrapAll(lines: seq<string>, width: int, preserve: bool, wrap: Wrapper): Result<seq<seq<string>>>
    decreases |lines|
  {
    if lines == [] then Success([])
    else
      match WrapLine(lines[0], width, preserve, wrap)
      case Failure(e) => Failure(e)
      case Success(first) =>
        match WrapAll(lines[1..], width, preserve, wrap)
        case Failure(e) => Failure(e)
        case Success(rest) => Success([first] + rest)
  }

  /** `apply_max_width`: wrap or cut every line, then flatten. */
  function ApplyMaxWidth(lines: seq<string>, width: int, preserve: bool, wrap: Wrapper): Result<seq<string>> {
    match WrapAll(lines, width, preserve, wrap)
    case Failure(e) => Failure(e)
    case Success(parts) => Success(FlattenList(Nest2(parts)))
  }

  /** One line: the failure cases, and a positive width bounds every piece. */
  lemma WrapLineProperties(line: string, width: int, preserve: bool, wrap: Wrapper)
    ensures var r := WrapLine(line, width, preserve, wrap);
      && (r.Failure? <==> (if preserve then width <= 0 else width == 0))
      && (r.Failure? ==> r.error == InvalidWidth)
      && (r.Success? && width > 0 ==> LinesWithin(r.value, width) && |r.value| >= 1)
      && (r.Success? && !preserve && width > 0 ==> Concat(r.value) == line)
      && (r.Success? && !preserve && width < 0 ==> r.value == [""])
  {
    if !preserve && width > 0 {
      ChunksSizes(line, width);
      ChunksConcat(line, width);
      ChunksCount(line, width);
      var cs := Chunks(line, width);
      assert forall i :: 0 <= i < |cs| ==> |cs[i]| <= width;
    }
  }

  lemma {:induction false} WrapAllProperties(lines: seq<string>, width: int, preserve: bool, wrap: Wrapper)
    ensures var r := WrapAll(lines, width, preserve, wrap);
      && (r.Failure? <==> |lines| > 0 && (if preserve then width <= 0 else width == 0))
      && (r.Failure? ==> r.error == InvalidWidth)
      && (r.Success? ==> |r.value| == |lines|)
      && (r.Success? && width > 0 ==> forall i :: 0 <= i < |lines| ==> LinesWithin(r.value[i], width) && |r.value[i]| >= 1)
      && (r.Success? && !preserve && width > 0 ==> forall i :: 0 <= i < |lines| ==> Concat(r.value[i]) == lines[i])
      && (r.Success? && !preserve && width < 0 ==> forall i :: 0 <= i < |lines| ==> r.value[i] == [""])
    decreases |lines|
  {
    if lines != [] {
      WrapLineProperties(lines[0], width, preserve, wrap);
      WrapAllProperties(lines[1..], width, preserve, wrap);
      var r := WrapAll(lines, width, preserve, wrap);
      if r.Success? {
        var rest := WrapAll(lines[1..], width, preserve, wrap);
        assert r.value == [WrapLine(lines[0], width, preserve, wrap).value] + rest.value;
        assert forall i :: 1 <= i < |lines| ==> r.value[i] == rest.value[i - 1];
      }
    }
  }

  lemma {:induction false} ConcatLinesWithin(parts: seq<seq<string>>, n: int)
    requires forall i :: 0 <= i < |parts| ==> LinesWithin(parts[i], n)
    ensures LinesWithin(Concat(parts), n)
  {
    if parts != [] {
      ConcatLinesWithin(parts[1..], n);
    }
  }

  lemma {:induction false} ConcatCount(parts: seq<seq<string>>)
    requires forall i :: 0 <= i < |parts| ==> |parts[i]| >= 1
    ensures |Concat(parts)| >= |parts|
  {
    if parts != [] {
      ConcatCount(parts[1..]);
    }
  }

  lemma {:induction false} ConcatOfConcat(parts: seq<seq<string>>, lines: seq<string>)
    requires |parts| == |lines| && forall i :: 0 <= i < |parts| ==> Concat(parts[i]) == lines[i]
    ensures Concat(Concat(parts)) == Concat(lines)
  {
    if parts != [] {
      ConcatOfConcat(parts[1..], lines[1..]);
      ConcatAppend(parts[0], Concat(parts[1..]));
    }
  }

  /** `apply_max_width` fails exactly when there is a line to wrap and the
      width is refused (textwrap: not positive; `range`: zero). Otherwise no
      line is lost, a positive width bounds every line, a cut keeps the
      characters in order, and a negative cut width empties every line. */
  lemma ApplyMaxWidthProperties(lines: seq<string>, width: int, preserve: bool, wrap: Wrapper)
    ensures var r := ApplyMaxWidth(lines, width, preserve, wrap);
      && (r.Failure? <==> |lines| > 0 && (if preserve then width <= 0 else width == 0))
      && (r.Failure? ==> r.error == InvalidWidth)
      && (r.Success? && width > 0 ==> LinesWithin(r.value, width) && |r.value| >= |lines|)
      && (r.Success? && !preserve && width > 0 ==> Concat(r.value) == Concat(lines))
      && (r.Success? && !preserve && width < 0 ==> r.value == seq(|lines|, _ => ""))
  {
    WrapAllProperties(lines, width, preserve, wrap);
    var w := WrapAll(lines, width, preserve, wrap);
    if w.Success? {
      FlattenNest2(w.value);
      if width > 0 {
        ConcatLinesWithin(w.value, width);
        ConcatCount(w.value);
      }
      if !preserve && width > 0 {
        ConcatOfConcat(w.value, lines);
      }
      if !preserve && width < 0 {
        ConcatSingletons(w.value, seq(|lines|, _ => ""));
      }
    }
  }

  /** The indentation counts against `max_width`: a cut line carries the
      indent spaces before its characters, and an indent as wide as the
      limit fills the whole first piece with spaces. */
  lemma IndentCountsAgainstWidth(line: string, indent: nat, width: int, wrap: Wrapper)
    requires line != [] && width > 0
    ensures var r := ApplyMaxWidth(Indent([line], indent, Left), width, false, wrap);
      && r.Success? && LinesWithin(r.value, width)
      && Concat(r.value) == Repeat(' ', indent) + line
      && (indent >= width ==> r.value[0] == Repeat(' ', width))
  {
    var lines := Indent([line], indent, Left);
    var text := lines[0];
    assert text == Repeat(' ', indent) + line;
    ApplyMaxWidthProperties(lines, width, false, wrap);
    assert Concat(lines) == text + Concat(lines[1..]);
    if indent >= width {
      var parts := WrapAll(lines, width, false, wrap).value;
      assert lines[1..] == [] && lines[0] == text;
      assert WrapLine(text, width, false, wrap) == Success(NonEmpty(Chunks(text, width)));
      assert WrapAll(lines[1..], width, false, wrap) == Success([]);
      assert parts == [NonEmpty(Chunks(text, width))];
      assert Chunks(text, width) == [text[..width]] + Chunks(text[width..], width);
      FlattenNest2(parts);
      assert Concat(parts) == parts[0] + Concat(parts[1..]);
    }
  }

  /** `line[::-1]`. */
  function Reverse(s: string): (r: string)
    ensures |r| == |s| && forall i :: 0 <= i < |s| ==> r[i] == s[|s| - 1 - i]
  {
    seq(|s|, i requires 0 <= i < |s| => s[|s| - 1 - i])
  }

  function ReverseLines(lines: seq<string>): (r: seq<string>)
    ensures |r| == |lines| && forall i :: 0 <= i < |lines| ==> r[i] == Reverse(lines[i])
  {
    seq(|lines|, i requires 0 <= i < |lines| => Reverse(lines[i]))
  }

  lemma ReverseInvolution(s: string)
    ensures Reverse(Reverse(s)) == s
  {
  }

  /** Reversing rearranges the characters and neither adds nor drops one. */
  lemma {:induction false} ReverseKeepsCharacters(s: string)
    ensures multiset(Reverse(s)) == multiset(s)
    decreases |s|
  {
    if s != [] {
      var t := s[1..];
      ReverseKeepsCharacters(t);
      ReverseConcat([s[0]], t);
      assert s == [s[0]] + t;
      assert Reverse([s[0]]) == [s[0]];
    }
  }

  /** Reversing a concatenation reverses the order of the two parts. */
  lemma ReverseConcat(a: string, b: string)
    ensures Reverse(a + b) == Reverse(b) + Reverse(a)
  {
  }

  /** Python's `s[:k]`: a negative `k` counts from the end. */
  function SliceTo<T>(s: seq<T>, k: int): (r: seq<T>)
    ensures |r| <= |s| && r == s[..|r|]
    ensures k >= 0 ==> |r| == if k <= |s| then k else |s|
    ensures k < 0 ==> |r| == if |s| + k >= 0 then |s| + k else 0
  {
    if k >= |s| then s
    else if k >= 0 then s[..k]
    else if |s| + k >= 0 then s[..|s| + k]
    else []
  }

  // ---------------------------------------------------------------------------
  // Ellipsis

  /** `apply_ellipsis`: the last `count` characters become the symbol, or
      every character when the line is shorter than `count`. */
  function EllipsisTail(line: string, symbol: char, count: nat): (r: string)
    ensures |r| == |line|
    ensures forall i :: 0 <= i < |r| ==> r[i] == if i >= |line| - count then symbol else line[i]
  {
    if count > |line| then Repeat(symbol, |line|)
    else line[..|line| - count] + Repeat(symbol, count)
  }

  /** The front variant used for reversed, preserved text: the first `count`
      characters become the symbol. */
  function EllipsisHead(line: string, symbol: char, count: nat): (r: string)
    ensures |r| == |line|
    ensures forall i :: 0 <= i < |r| ==> r[i] == if i < count then symbol else line[i]
  {
    if |line| >= count then Repeat(symbol, count) + line[count..]
    else Repeat(symbol, |line|)
  }

  /** `apply_advance_ellipsis` on one line. */
  function AdvanceEllipsis(line: string, symbol: char, count: nat, dir: Direction): (r: string)
    ensures |r| == |line|
  {
    if !dir.action && dir.preserve then EllipsisHead(line, symbol, count)
    else EllipsisTail(line, symbol, count)
  }

  /** Marks the last line, failing like `text[-1]` on an empty list. */
  function MarkLast(lines: seq<string>, symbol: char, count: nat, dir: Direction): (r: Result<seq<string>>)
    ensures r.Failure? <==> lines == []
    ensures r.Failure? ==> r.error == IndexOutOfRange
    ensures r.Success? ==> (|r.value| == |lines|
      && r.value[..|lines| - 1] == lines[..|lines| - 1]
      && r.value[|lines| - 1] == AdvanceEllipsis(lines[|lines| - 1], symbol, count, dir))
  {
    if lines == [] then Failure(IndexOutOfRange)
    else Success(lines[|lines| - 1 := AdvanceEllipsis(lines[|lines| - 1], symbol, count, dir)])
  }

  /** The ellipsis stage on the lines to draw and the lines as seen. The
      seen lines are the same list as the drawn ones only when the text runs
      forward, so only then do they receive the max-line mark; slicing at the
      screen edge makes a new list. `before` is the text ahead of the line
      limit. */
  function EllipsisStage(drawn: seq<string>, viewed: seq<string>, before: seq<string>, y: int, h: int,
                         e: EllipsisArg, dir: Direction): (r: Result<(seq<string>, seq<string>)>)
    requires e.Ellipsis? ==> |e.symbol| == 1 && e.count > 0
  {
    match e
    case NoEllipsis => Success((drawn, viewed))
    case Ellipsis(symbol, count, at) =>
      if at != ScreenEdge && |drawn| < |before| then
        match MarkLast(drawn, symbol[0], count, dir)
        case Failure(err) => Failure(err)
        case Success(marked) => Success((marked, if dir.action then marked else viewed))
      else if at != MaxLine && y + |drawn| > h then
        match MarkLast(SliceTo(drawn, |drawn| - (y + |drawn| - h)), symbol[0], count, dir)
        case Failure(err) => Failure(err)
        case Success(marked) => Success((marked, viewed))
      else Success((drawn, viewed))
  }

  lemma EllipsisStageShape(drawn: seq<string>, viewed: seq<string>, before: seq<string>, y: int, h: int,
                           e: EllipsisArg, dir: Direction, n: int)
    requires e.Ellipsis? ==> |e.symbol| == 1 && e.count > 0
    requires LinesWithin(drawn, n)
    ensures var r := EllipsisStage(drawn, viewed, before, y, h, e, dir);
      r.Success? ==> |r.value.0| <= |drawn| && LinesWithin(r.value.0, n)
  {
    var r := EllipsisStage(drawn, viewed, before, y, h, e, dir);
    if r.Success? && e.Ellipsis? {
      var cut := SliceTo(drawn, |drawn| - (y + |drawn| - h));
      assert forall i :: 0 <= i < |cut| ==> cut[i] == drawn[i];
    }
  }

  /** The length of the longest line (`len(max(text, key=len))`). */
  function MaxLen(lines: seq<string>): (m: nat)
    requires |lines| > 0
    ensures forall i :: 0 <= i < |lines| ==> |lines[i]| <= m
    ensures exists i :: 0 <= i < |lines| && |lines[i]| == m
  {
    if |lines| == 1 then |lines[0]|
    else
      var rest := MaxLen(lines[1..]);
      assert forall i :: 1 <= i < |lines| ==> lines[i] == lines[1..][i - 1];
      if |lines[0]| >= rest then |lines[0]| else rest
  }

  // ---------------------------------------------------------------------------
  // The whole pipeline

  /** The checks of `draw_str` in the source's order: the anchor (only a
      position right of or below the display is refused), the text, the line
      limit, `foward`, `ellipsis`, the two masks and the indent. */
  function Validate(w: int, h: int, x: int, y: int, text: seq<Nested<string>>, o: StrOptions): (r: Result<Direction>)
    ensures r.Success? ==> o.indent >= 0 && o.maxLine >= 0 && CheckEllipsis(o.ellipsis).Pass?
    ensures r.Success? ==> r == DirectionOf(o.forward)
    ensures r.Success? ==> (o.textMask == [] || AllPrintable(o.textMask)) && (o.restrict == [] || AllPrintable(o.restrict))
    ensures !IsValidPosition(Position(x, y), (w, h)) && x >= 0 && y >= 0 ==> r == Failure(InvalidPosition)
  {
    if !IsValidPosition(Position(x, y), (w, h)) && x >= 0 && y >= 0 then Failure(InvalidPosition)
    else if text != Items(FlattenItems(text)) then Failure(InvalidText)
    else if o.maxLine < 0 then Failure(InvalidMaxLine)
    else
      match DirectionOf(o.forward)
      case Failure(e) => Failure(e)
      case Success(dir) =>
        match CheckEllipsis(o.ellipsis)
        case Fail(e) => Failure(e)
        case Pass =>
          if o.textMask != [] && !AllPrintable(o.textMask) then Failure(InvalidMask)
          else if o.restrict != [] && !AllPrintable(o.restrict) then Failure(InvalidMask)
          else if o.indent < 0 then Failure(InvalidIndent)
          else Success(dir)
  }

  /** Indent, then the `max_width` limit (skipped when it is 0), then the
      screen-edge wrap at `width - x` (skipped for "default"). */
  function Widen(w: int, x: int, cleaned: seq<string>, o: StrOptions, dir: Direction, wrap: Wrapper): Result<seq<string>>
    requires o.indent >= 0
  {
    var indented := if o.indent != 0 then Indent(cleaned, o.indent, dir.anchor) else cleaned;
    match (if o.maxWidth.width != 0 then ApplyMaxWidth(indented, o.maxWidth.width, o.maxWidth.WordWrap?, wrap) else Success(indented))
    case Failure(e) => Failure(e)
    case Success(widthed) =>
      if o.edge != Stop then ApplyMaxWidth(widthed, w - x, o.edge == PreserveWords, wrap) else Success(widthed)
  }

  /** The result box: one column left of the anchor to one right of the
      longest line for forward or right-anchored text, mirrored for text drawn
      leftwards from a left anchor; one row above to one below the lines. An
      empty list of lines fails like `max()` of an empty list. */
  function Bordered(x: int, y: int, lines: seq<string>, viewed: seq<string>, dir: Direction): (r: Result<Layout>)
    ensures r.Failure? <==> lines == []
    ensures r.Failure? ==> r.error == EmptyText
    ensures r.Success? ==>
      var b := r.value.result.edge;
      && r.value.lines == lines && r.value.dir == dir && r.value.result.text == viewed
      && b.bottom - b.top - 1 == |lines| && b.top == y - 1
      && b.right - b.left - 1 == r.value.maxLen
      && (if dir.action || dir.anchor == Right then b.left == x - 1 else b.right == x + 1)
      && LinesWithin(lines, r.value.maxLen)
      && (exists i :: 0 <= i < |lines| && |lines[i]| == r.value.maxLen)
  {
    if lines == [] then Failure(EmptyText)
    else
      var m := MaxLen(lines);
      var wide := dir.action || dir.anchor == Right;
      Success(Layout(lines, m, dir, DrawResult(
        Box(if wide then x - 1 else x - m, y - 1, if wide then x + m else x + 1, y + |lines|),
        viewed)))
  }

  /** The line limit, the direction (reversing either the drawn or the seen
      lines), the ellipsis and the box. */
  function Finish(h: int, x: int, y: int, edged: seq<string>, o: StrOptions, dir: Direction): Result<Layout>
    requires o.maxLine >= 0 && CheckEllipsis(o.ellipsis).Pass?
  {
    var limited := if o.maxLine != 0 then SliceTo(edged, o.maxLine) else edged;
    var drawn := if !dir.action && dir.preserve then ReverseLines(limited) else limited;
    var viewed := if !dir.action && !dir.preserve then ReverseLines(limited) else limited;
    match EllipsisStage(drawn, viewed, edged, y, h, o.ellipsis, dir)
    case Failure(e) => Failure(e)
    case Success(stage) => Bordered(x, y, stage.0, stage.1, dir)
  }

  /** `draw_str` up to the drawing. `text` is the argument as a list (a plain
      string is a one-item list). */
  function Prepare(w: int, h: int, x: int, y: int, text: seq<Nested<string>>, o: StrOptions, wrap: Wrapper): Result<Layout> {
    match Validate(w, h, x, y, text, o)
    case Failure(e) => Failure(e)
    case Success(dir) =>
      match Widen(w, x, CleanLines(FlattenItems(text)), o, dir, wrap)
      case Failure(e) => Failure(e)
      case Success(edged) => Finish(h, x, y, edged, o, dir)
  }

  /** A nested list is refused (once the anchor has passed its check), and a
      flat list of strings always passes the text check. */
  lemma NestedTextRejected(w: int, h: int, x: int, y: int, text: seq<Nested<string>>, o: StrOptions, wrap: Wrapper)
    requires IsValidPosition(Position(x, y), (w, h))
    ensures (exists i :: 0 <= i < |text| && text[i].List?) <==> Validate(w, h, x, y, text, o) == Failure(InvalidText)
    ensures (exists i :: 0 <= i < |text| && text[i].List?) ==> Prepare(w, h, x, y, text, o, wrap) == Failure(InvalidText)
  {
    FlatCheckIff(text);
  }

  /** The arguments are accepted exactly when the anchor is on the display or
      has a negative coordinate, the text is flat, the direction, ellipsis,
      masks, line limit and indent are all well formed. */
  lemma ValidateAccepts(w: int, h: int, x: int, y: int, text: seq<Nested<string>>, o: StrOptions)
    ensures Validate(w, h, x, y, text, o).Success? <==>
      && (IsValidPosition(Position(x, y), (w, h)) || x < 0 || y < 0)
      && (forall i :: 0 <= i < |text| ==> text[i].Item?)
      && o.maxLine >= 0 && DirectionOf(o.forward).Success? && CheckEllipsis(o.ellipsis).Pass?
      && (o.textMask == [] || AllPrintable(o.textMask)) && (o.restrict == [] || AllPrintable(o.restrict))
      && o.indent >= 0
  {
    FlatCheckIff(text);
  }

  /** The layout of `lines` drawn forward from `(x, y)`, anchored left. */
  function DefaultLayout(x: int, y: int, lines: seq<string>): (r: Layout)
    requires lines != []
    ensures r.lines == lines && r.result.text == lines && r.dir == Direction(true, false, Left)
    ensures r.result.edge == Box(x - 1, y - 1, x + r.maxLen, y + |lines|)
    ensures LinesWithin(lines, r.maxLen) && exists i :: 0 <= i < |lines| && |lines[i]| == r.maxLen
  {
    var m := MaxLen(lines);
    Layout(lines, m, Direction(true, false, Left), DrawResult(Box(x - 1, y - 1, x + m, y + |lines|), lines))
  }

  /** With the default options, flat printable text at an anchor the check
      lets through is laid out as given: forward, anchored left, in a box one
      cell around it. */
  lemma DefaultsLayout(w: int, h: int, x: int, y: int, lines: seq<string>, wrap: Wrapper)
    requires IsValidPosition(Position(x, y), (w, h)) || x < 0 || y < 0
    requires lines != [] && forall i :: 0 <= i < |lines| ==> AllPrintable(lines[i])
    ensures Prepare(w, h, x, y, Items(lines), Defaults, wrap) == Success(DefaultLayout(x, y, lines))
  {
    var text := Items(lines);
    var dir := Direction(true, false, Left);
    ValidateAccepts(w, h, x, y, text, Defaults);
    FlattenFlat(lines);
    CleanKeepsPrintable(lines);
    assert CleanLines(FlattenItems(text)) == lines;
    DefaultsKeepLines(w, h, x, y, lines, wrap);
  }

  lemma DefaultsKeepLines(w: int, h: int, x: int, y: int, lines: seq<string>, wrap: Wrapper)
    requires lines != []
    ensures Widen(w, x, lines, Defaults, Direction(true, false, Left), wrap) == Success(lines)
    ensures Finish(h, x, y, lines, Defaults, Direction(true, false, Left)) == Success(DefaultLayout(x, y, lines))
  {
    var dir := Direction(true, false, Left);
    var o := Defaults;
    assert o.indent == 0 && o.maxWidth.width == 0 && o.edge == Stop && o.maxLine == 0 && o.ellipsis == NoEllipsis;
    assert EllipsisStage(lines, lines, lines, y, h, NoEllipsis, dir) == Success((lines, lines));
  }

  /** The line limit and the ellipsis stage never add lines or lengthen one. */
  lemma {:induction false} FinishShape(h: int, x: int, y: int, edged: seq<string>, o: StrOptions, dir: Direction, n: int)
    requires o.maxLine >= 0 && CheckEllipsis(o.ellipsis).Pass?
    requires LinesWithin(edged, n)
    ensures var r := Finish(h, x, y, edged, o, dir);
      r.Success? ==> (LinesWithin(r.value.lines, n) && |r.value.lines| <= |edged|
        && (o.maxLine > 0 ==> |r.value.lines| <= o.maxLine))
  {
    var limited := if o.maxLine != 0 then SliceTo(edged, o.maxLine) else edged;
    assert forall i :: 0 <= i < |limited| ==> limited[i] == edged[i];
    var drawn := if !dir.action && dir.preserve then ReverseLines(limited) else limited;
    var viewed := if !dir.action && !dir.preserve then ReverseLines(limited) else limited;
    EllipsisStageShape(drawn, viewed, edged, y, h, o.ellipsis, dir, n);
  }

  lemma WidenFitsEdge(w: int, x: int, cleaned: seq<string>, o: StrOptions, dir: Direction, wrap: Wrapper)
    requires o.indent >= 0 && o.edge != Stop && x < w
    ensures var r := Widen(w, x, cleaned, o, dir, wrap);
      r.Success? ==> LinesWithin(r.value, w - x)
  {
    var indented := if o.indent != 0 then Indent(cleaned, o.indent, dir.anchor) else cleaned;
    var r1 := if o.maxWidth.width != 0 then ApplyMaxWidth(indented, o.maxWidth.width, o.maxWidth.WordWrap?, wrap) else Success(indented);
    if r1.Success? {
      ApplyMaxWidthProperties(r1.value, w - x, o.edge == PreserveWords, wrap);
    }
  }

  lemma WidenFitsWidth(w: int, x: int, cleaned: seq<string>, o: StrOptions, dir: Direction, wrap: Wrapper)
    requires o.indent >= 0 && o.edge == Stop && o.maxWidth.width > 0
    ensures var r := Widen(w, x, cleaned, o, dir, wrap);
      r.Success? ==> LinesWithin(r.value, o.maxWidth.width)
  {
    var indented := if o.indent != 0 then Indent(cleaned, o.indent, dir.anchor) else cleaned;
    ApplyMaxWidthProperties(indented, o.maxWidth.width, o.maxWidth.WordWrap?, wrap);
  }

  /** A successful layout's box encloses the text: one row per line between
      top and bottom, as many columns between left and right as the longest
      line, which every line fits. */
  lemma LayoutBoxEncloses(w: int, h: int, x: int, y: int, text: seq<Nested<string>>, o: StrOptions, wrap: Wrapper)
    ensures var r := Prepare(w, h, x, y, text, o, wrap);
      r.Success? ==>
        var b := r.value.result.edge;
        && b.bottom - b.top - 1 == |r.value.lines| >= 1
        && b.right - b.left - 1 == r.value.maxLen
        && LinesWithin(r.value.lines, r.value.maxLen)
  {
  }

  /** At most `max_line` lines are drawn. */
  lemma LayoutRespectsMaxLine(w: int, h: int, x: int, y: int, text: seq<Nested<string>>, o: StrOptions, wrap: Wrapper)
    requires o.maxLine > 0
    ensures var r := Prepare(w, h, x, y, text, o, wrap);
      r.Success? ==> |r.value.lines| <= o.maxLine
  {
    var v := Validate(w, h, x, y, text, o);
    if v.Success? {
      var e := Widen(w, x, CleanLines(FlattenItems(text)), o, v.value, wrap);
      if e.Success? {
        var n := if e.value == [] then 0 else MaxLen(e.value);
        FinishShape(h, x, y, e.value, o, v.value, n);
      }
    }
  }

  /** With `edge_of_screen` "newline" or "preserve" and an anchor on the
      display, every line drawn fits between the anchor and the right edge. */
  lemma LayoutFitsScreenEdge(w: int, h: int, x: int, y: int, text: seq<Nested<string>>, o: StrOptions, wrap: Wrapper)
    requires o.edge != Stop && 0 <= x < w
    ensures var r := Prepare(w, h, x, y, text, o, wrap);
      r.Success? ==> LinesWithin(r.value.lines, w - x)
  {
    var v := Validate(w, h, x, y, text, o);
    if v.Success? {
      WidenFitsEdge(w, x, CleanLines(FlattenItems(text)), o, v.value, wrap);
      var e := Widen(w, x, CleanLines(FlattenItems(text)), o, v.value, wrap);
      if e.Success? {
        FinishShape(h, x, y, e.value, o, v.value, w - x);
      }
    }
  }

  /** With a positive `max_width` and the default screen-edge policy, no line
      drawn is longer than `max_width`. */
  lemma LayoutRespectsMaxWidth(w: int, h: int, x: int, y: int, text: seq<Nested<string>>, o: StrOptions, wrap: Wrapper)
    requires o.edge == Stop && o.maxWidth.width > 0
    ensures var r := Prepare(w, h, x, y, text, o, wrap);
      r.Success? ==> LinesWithin(r.value.lines, o.maxWidth.width)
  {
    var v := Validate(w, h, x, y, text, o);
    if v.Success? {
      WidenFitsWidth(w, x, CleanLines(FlattenItems(text)), o, v.value, wrap);
      var e := Widen(w, x, CleanLines(FlattenItems(text)), o, v.value, wrap);
      if e.Success? {
        FinishShape(h, x, y, e.value, o, v.value, o.maxWidth.width);
      }
    }
  }
}
