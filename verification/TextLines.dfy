/** What a text area shows, said without the steps in which it gets there: paragraphs wrapped
    greedily, and each pixel from the bytes of the font. */
module TextLines {
  import opened Framebuffers
  import opened TextDrawing
  import opened TextAreas

  // ---- The lines of a text ----

  /** The first drawn cell, from `i` on, for which a line of `n` columns has no room. */
  function FirstBeyond(n: nat, cells: seq<Cell>, i: nat): (j: nat)
    requires i <= |cells|
    ensures i <= j <= |cells| && (j < |cells| ==> n <= j)
    decreases |cells| - i
  {
    if i == |cells| || (n <= i && cells[i].Shown?) then i else FirstBeyond(n, cells, i + 1)
  }

  /** A paragraph cut into lines, each as long as can be. Cells that are stepped over may stick out. */
  function Wrapped(n: nat, cells: seq<Cell>): (lines: seq<Line>)
    requires 0 < n
    ensures lines != []
    decreases |cells|
  {
    var i := FirstBeyond(n, cells, 0);
    if i == |cells| then [cells] else [cells[..i]] + Wrapped(n, cells[i..])
  }

  function CellFor(font: FontSet, ch: int): Cell {
    if font.startingCharacter <= ch <= font.endingCharacter then Shown(ch) else Blank
  }

  /** A text split at its newlines. */
  function Paragraphs(font: FontSet, text: seq<int>): (ps: seq<seq<Cell>>)
    ensures ps != []
  {
    if text == [] then [[]]
    else
      var rest := Paragraphs(font, text[1..]);
      if text[0] == NEWLINE then [[]] + rest else [[CellFor(font, text[0])] + rest[0]] + rest[1..]
  }

  function Flow(n: nat, ps: seq<seq<Cell>>): seq<Line>
    requires 0 < n
  {
    if ps == [] then [] else Flow(n, ps[..|ps| - 1]) + Wrapped(n, ps[|ps| - 1])
  }

  lemma {:induction false} FirstBeyondMore(n: nat, cells: seq<Cell>, c: Cell, i: nat)
    requires i <= |cells|
    ensures FirstBeyond(n, cells + [c], i) ==
            if FirstBeyond(n, cells, i) < |cells| then FirstBeyond(n, cells, i)
            else if n <= |cells| && c.Shown? then |cells| else |cells| + 1
    decreases |cells| - i
  {
    if i == |cells| {
      assert (cells + [c])[i] == c;
    } else {
      assert (cells + [c])[i] == cells[i];
      FirstBeyondMore(n, cells, c, i + 1);
    }
  }

  lemma LastOfLonger(line: Line, lines: seq<Line>, c: Cell)
    requires lines != []
    ensures var m := |lines| - 1;
            ([line] + lines)[m + 1 := lines[m] + [c]] == [line] + lines[m := lines[m] + [c]]
  {
  }

  lemma LastOfFirst(first: Cell, lines: seq<Line>, c: Cell)
    requires lines != []
    ensures var m, more := |lines| - 1, [[first] + lines[0]] + lines[1..];
            && |more| == |lines|
            && more[m := more[m] + [c]] == (var after := lines[m := lines[m] + [c]]; [[first] + after[0]] + after[1..])
            && [[first] + lines[0]] + (lines + [[]])[1..] == more + [[]]
  {
    var m, more := |lines| - 1, [[first] + lines[0]] + lines[1..];
    if m == 0 {
      assert [first] + (lines[0] + [c]) == [first] + lines[0] + [c];
    } else {
      assert lines[m := lines[m] + [c]][1..] == lines[1..][m - 1 := lines[m] + [c]];
    }
  }

  /** One more cell goes on the last line, or on a new one if it has to be drawn beyond the edge. */
  lemma {:induction false} WrappedMore(n: nat, cells: seq<Cell>, c: Cell)
    requires 0 < n
    ensures var lines := Wrapped(n, cells);
            var last := lines[|lines| - 1];
            Wrapped(n, cells + [c]) ==
            if c.Shown? && n <= |last| then lines + [[c]] else lines[|lines| - 1 := last + [c]]
    decreases |cells|
  {
    var i := FirstBeyond(n, cells, 0);
    FirstBeyondMore(n, cells, c, 0);
    if i == |cells| {
      assert (cells + [c])[|cells|..] == [c];
      assert FirstBeyond(n, [c], 0) == 1;
    } else {
      assert (cells + [c])[i..] == cells[i..] + [c];
      WrappedMore(n, cells[i..], c);
      assert (cells + [c])[..i] == cells[..i];
      LastOfLonger(cells[..i], Wrapped(n, cells[i..]), c);
    }
  }

  lemma {:induction false} ParagraphsMore(font: FontSet, text: seq<int>, ch: int)
    ensures var ps := Paragraphs(font, text);
            Paragraphs(font, text + [ch]) ==
            if ch == NEWLINE then ps + [[]] else ps[|ps| - 1 := ps[|ps| - 1] + [CellFor(font, ch)]]
  {
    if text == [] {
      var one := text + [ch];
      assert one[0] == ch && one[1..] == [];
      assert Paragraphs(font, one[1..]) == [[]];
      var cell := CellFor(font, ch);
      assert [cell] + [] == [] + [cell] == [cell];
      assert [[cell]] + [[]][1..] == [[]][0 := [cell]];
    } else {
      assert (text + [ch])[1..] == text[1..] + [ch];
      ParagraphsMore(font, text[1..], ch);
      var rest := Paragraphs(font, text[1..]);
      LastOfLonger([], rest, CellFor(font, ch));
      LastOfFirst(CellFor(font, text[0]), rest, CellFor(font, ch));
      assert text[0] == (text + [ch])[0];
    }
  }

  lemma {:induction false} LayoutMore(g: Setting, left: int, lines: seq<Line>, text: seq<int>, ch: int)
    requires lines != []
    ensures Layout(g, left, lines, text) != []
    ensures Layout(g, left, lines, text + [ch]) == Fed(g, left, Layout(g, left, lines, text), ch)
    decreases |text|
  {
    FedIsNotEmpty(g, left, lines, if text == [] then ch else text[0]);
    if text == [] {
      assert (text + [ch])[1..] == [];
    } else {
      hide Fed;
      assert (text + [ch])[1..] == text[1..] + [ch];
      LayoutMore(g, left, Fed(g, left, lines, text[0]), text[1..], ch);
    }
  }

  /** How many glyphs fit between the left edge of the text and that of the framebuffer. */
  function Columns(g: Setting, left: int): int
    requires 0 < g.style.font.width
  {
    (g.width - left) / g.style.font.width
  }

  lemma ColumnsMeans(g: Setting, left: int, n: nat)
    requires 0 < g.style.font.width && left + g.style.font.width <= g.width
    ensures 0 < Columns(g, left)
    ensures left + g.style.font.width * (n + 1) > g.width <==> Columns(g, left) <= n
  {
    var w, room := g.style.font.width, g.width - left;
    QuotientMeans(room, room / w, w);
    MulMono(n + 1, room / w, w);
    MulMono(room / w + 1, n + 1, w);
    MulMono(1, room / w, w);
  }

  lemma FlowMore(n: nat, ps: seq<seq<Cell>>, p: seq<Cell>)
    requires 0 < n
    ensures Flow(n, ps + [p]) == Flow(n, ps) + Wrapped(n, p)
  {
    assert (ps + [p])[..|ps|] == ps;
  }

  /** The lines that typing makes, one character at a time, are the paragraphs of the text wrapped
      greedily, below the lines above the cursor. */
  lemma {:induction false} LayoutIsGreedy(g: Setting, left: int, top: nat, text: seq<int>)
    requires g.wrap && 0 < g.style.font.width && left + g.style.font.width <= g.width
    ensures 0 < Columns(g, left)
    ensures Layout(g, left, EmptyLines(top + 1), text)
         == EmptyLines(top) + Flow(Columns(g, left), Paragraphs(g.style.font, text))
  {
    ColumnsMeans(g, left, 0);
    var n := Columns(g, left);
    if text == [] {
      assert EmptyLines(top + 1) == EmptyLines(top) + [[]];
      FlowMore(n, [], []);
    } else {
      var front, ch := text[..|text| - 1], text[|text| - 1];
      assert text == front + [ch];
      LayoutIsGreedy(g, left, top, front);
      LayoutMore(g, left, EmptyLines(top + 1), front, ch);
      ParagraphsMore(g.style.font, front, ch);
      FedIsFlow(g, left, EmptyLines(top), Paragraphs(g.style.font, front), ch);
    }
  }

  /** What one character does, by the number of columns. */
  lemma FedCases(g: Setting, left: int, lines: seq<Line>, ch: int)
    requires g.wrap && 0 < g.style.font.width && left + g.style.font.width <= g.width && lines != []
    ensures var last, cell := lines[|lines| - 1], CellFor(g.style.font, ch);
            Fed(g, left, lines, ch) ==
            if ch == NEWLINE then lines + [[]]
            else if cell.Shown? && Columns(g, left) <= |last| then lines + [[cell]]
            else lines[|lines| - 1 := last + [cell]]
  {
    ColumnsMeans(g, left, |lines[|lines| - 1]|);
    hide Columns;
  }

  lemma FedIsFlow(g: Setting, left: int, above: seq<Line>, ps: seq<seq<Cell>>, ch: int)
    requires g.wrap && 0 < g.style.font.width && left + g.style.font.width <= g.width && ps != []
    ensures 0 < Columns(g, left)
    ensures var n, font := Columns(g, left), g.style.font;
            var more := if ch == NEWLINE then ps + [[]] else ps[|ps| - 1 := ps[|ps| - 1] + [CellFor(font, ch)]];
            Flow(n, ps) != [] && Fed(g, left, above + Flow(n, ps), ch) == above + Flow(n, more)
  {
    ColumnsMeans(g, left, 0);
    hide Columns, Fed;
    var n, m := Columns(g, left), |ps| - 1;
    assert ps == ps[..m] + [ps[m]];
    FlowMore(n, ps[..m], ps[m]);
    if ch == NEWLINE {
      FlowMore(n, ps, []);
      assert Wrapped(n, []) == [[]];
      hide Flow, Wrapped;
      Regroup(above, Flow(n, ps), [[]]);
      FedCases(g, left, above + Flow(n, ps), ch);
    } else {
      hide Flow, Wrapped;
      CellIsFlow(g, left, above, ps[..m], ps[m], ch);
      assert ps[m := ps[m] + [CellFor(g.style.font, ch)]] == ps[..m] + [ps[m] + [CellFor(g.style.font, ch)]];
    }
  }

  lemma CellIsFlow(g: Setting, left: int, above: seq<Line>, ps: seq<seq<Cell>>, p: seq<Cell>, ch: int)
    requires g.wrap && 0 < g.style.font.width && left + g.style.font.width <= g.width && ch != NEWLINE
    ensures 0 < Columns(g, left)
    ensures var n, cell := Columns(g, left), CellFor(g.style.font, ch);
            Fed(g, left, above + (Flow(n, ps) + Wrapped(n, p)), ch) == above + Flow(n, ps + [p + [cell]])
  {
    ColumnsMeans(g, left, 0);
    var n, cell := Columns(g, left), CellFor(g.style.font, ch);
    hide Columns, Fed, Flow, Wrapped, CellFor;
    FlowMore(n, ps, p + [cell]);
    WrappedMore(n, p, cell);
    var before, lines := above + Flow(n, ps), Wrapped(n, p);
    Regroup(above, Flow(n, ps), lines);
    Regroup(above, Flow(n, ps), Wrapped(n, p + [cell]));
    FedCases(g, left, before + lines, ch);
    LastOfAll(before, lines, lines[|lines| - 1] + [cell], [cell]);
  }

  lemma LastOfAll(above: seq<Line>, lines: seq<Line>, last: Line, next: Line)
    requires lines != []
    ensures var all := above + lines;
            && all[|all| - 1] == lines[|lines| - 1]
            && all[|all| - 1 := last] == above + lines[|lines| - 1 := last]
            && all + [next] == above + (lines + [next])
  {
  }

  // ---- The pixels ----

  /** Whether a pixel of a cell, at an offset from the cell's row and column, is a glyph's. */
  predicate InGlyph(font: FontSet, cell: Cell, dx: nat, dy: nat)
    requires font.Valid() && 0 < font.width && 0 < font.height
  {
    cell.Shown? && cell.ch != 0x20 && cell.ch != 0 && font.Has(cell.ch)
    && GlyphBit(font, cell.ch, dx % font.width, dy % font.height)
  }

  function CellIndex(d: nat, size: nat): nat
    requires 0 < size
  {
    d / size
  }

  /** Whether a pixel of the framebuffer is one of the drawn glyphs' pixels: the lines start at
      column `left`, and as many of the last ones are shown as there is room for. */
  predicate IsForeground(g: Setting, left: nat, rows: nat, lines: seq<Line>, p: Point)
    requires g.Valid() && 0 < g.style.font.width && 0 < g.style.font.height && 0 <= p.y
  {
    left <= p.x &&
    var dx: nat := p.x - left;
    var row := CellIndex(p.y, g.style.font.height) + (if rows < |lines| then |lines| - rows else 0);
    var column := CellIndex(dx, g.style.font.width);
    row < |lines| && column < |lines[row]| && InGlyph(g.style.font, lines[row][column], dx, p.y)
  }

  lemma CellColorIs(style: Style, ch: int, dx: int, dy: int)
    requires style.font.Valid() && style.font.Has(ch) && 0 <= dx < style.font.width && 0 <= dy < style.font.height
    ensures CellColor(style, ch, dx, dy) ==
            if ch != 0x20 && ch != 0 && GlyphBit(style.font, ch, dx, dy) then style.foreground else style.background
  {
    GlyphRowIsBinary(style.font, ch, dx, dy);
  }

  lemma PageColorIs(g: Setting, left: nat, rows: nat, lines: seq<Line>, p: Point)
    requires g.Valid() && 0 < g.style.font.width && 0 < g.style.font.height && 0 <= p.x
    requires 0 <= p.y < rows * g.style.font.height && Printable(g.style.font, Visible(lines, rows))
    ensures PageColor(g.style, left, Visible(lines, rows), p) ==
            if IsForeground(g, left, rows, lines, p) then g.style.foreground else g.style.background
  {
    hide CellColor, GlyphBit, CellOf, Visible;
    var font, page := g.style.font, Visible(lines, rows);
    QuotientBelow(p.y, rows, font.height);
    if left <= p.x {
      var row, column := p.y / font.height, (p.x - left) / font.width;
      QuotientsAreNatural(Point(p.x - left, p.y), font.width, font.height);
      CellIs(lines, rows, row, column);
      if CellOf(page, row, column).Shown? {
        PrintedHas(font, page, row, column);
        CellColorIs(g.style, CellOf(page, row, column).ch, (p.x - left) % font.width, p.y % font.height);
      }
    }
  }

  lemma PrintedHas(font: FontSet, page: seq<Line>, row: nat, column: nat)
    requires Printable(font, page) && CellOf(page, row, column).Shown?
    ensures font.Has(CellOf(page, row, column).ch)
  {
  }

  lemma QuotientBelow(d: nat, n: nat, size: nat)
    requires 0 < size && d < n * size
    ensures 0 <= d / size < n
  {
    MulMono(n, d / size, size);
    assert d == (d / size) * size + d % size;
  }

  lemma CellIs(lines: seq<Line>, rows: nat, row: nat, column: nat)
    ensures row < rows ==>
              var r := row + (if rows < |lines| then |lines| - rows else 0);
              CellOf(Visible(lines, rows), row, column) ==
              if r < |lines| && column < |lines[r]| then lines[r][column] else Blank
  {
  }

  /** Any text, typed on a cleared framebuffer from any column and text line where a glyph fits:
      a pixel is foreground exactly if it is a pixel of a glyph of the last lines of the text's
      paragraphs, wrapped greedily. */
  lemma TextPixels(g: Setting, left: nat, rows: nat, top: nat, text: seq<int>, p: Point)
    requires Roomy(g, left, rows) && top < rows && p in Area(g.width, g.height)
    ensures 0 < Columns(g, left)
    ensures var cleared := map q | q in Area(g.width, g.height) :: g.style.background;
            var s := TypedAll(g, Screen(cleared, left, g.style.font.height * top, 0), text);
            var lines := EmptyLines(top) + Flow(Columns(g, left), Paragraphs(g.style.font, text));
            && p in s.pic && 0 <= p.y
            && s.pic[p] ==
               if IsForeground(g, left, rows, lines, p) then g.style.foreground else g.style.background
  {
    AreaMeans(g.width, g.height, p);
    hide TypedAll, Layout, Flow, Paragraphs, EmptyLines, IsForeground, Visible, PageColor, Printable, Unclipped, Area;
    LayoutIsGreedy(g, left, top, text);
    TextAreaShowsTheLastLines(g, left, rows, top, text);
    PageColorIs(g, left, rows, Layout(g, left, EmptyLines(top + 1), text), p);
  }

  // ---- The cursor, from any start ----

  /** The cursor is where the last line ends; a line break brings it back to the column where the
      text started, and down by a text line if that is inside. */
  predicate CursorAt(g: Setting, left: int, start: int, breaks: int, down: int, s: Screen, lines: seq<Line>) {
    && lines != [] && s.columns == |lines[|lines| - 1]|
    && s.x == left + g.style.font.width * s.columns
    && s.y == start + g.style.font.height * down
    && 0 <= down <= breaks
    && if start < g.height then s.y < g.height && (down == breaks || g.height <= s.y + g.style.font.height)
       else down == 0
  }

  lemma TypedMovesCursor(g: Setting, left: int, start: int, breaks: int, down: int,
                         s: Screen, lines: seq<Line>, ch: int)
    returns (down': int)
    requires g.Valid() && CursorAt(g, left, start, breaks, down, s, lines)
    ensures var lines' := Fed(g, left, lines, ch);
            CursorAt(g, left, start, breaks + |lines'| - |lines|, down', Typed(g, s, ch), lines')
  {
    hide Inked, Scrolled;
    var w, last := g.style.font.width, lines[|lines| - 1];
    assert w * (|last| + 1) == w * |last| + w;
    down' := if |Fed(g, left, lines, ch)| > |lines| && s.y + g.style.font.height < g.height then down + 1 else down;
    assert g.style.font.height * (down + 1) == g.style.font.height * down + g.style.font.height;
  }

  /** For any text, wrap setting and starting cursor, also after some columns. */
  lemma {:induction false} CursorFollowsText(g: Setting, left: int, start: int, breaks: int, down: int,
                                             s: Screen, lines: seq<Line>, text: seq<int>)
    returns (down': int)
    requires g.Valid() && CursorAt(g, left, start, breaks, down, s, lines)
    ensures var lines' := Layout(g, left, lines, text);
            CursorAt(g, left, start, breaks + |lines'| - |lines|, down', TypedAll(g, s, text), lines')
    decreases |text|
  {
    down' := down;
    if text == [] {
    } else {
      hide CursorAt, Typed, Fed;
      FedIsNotEmpty(g, left, lines, text[0]);
      var fed := Fed(g, left, lines, text[0]);
      assert lines != [] by { CursorHasLine(g, left, start, breaks, down, s, lines); }
      var next := TypedMovesCursor(g, left, start, breaks, down, s, lines, text[0]);
      down' := CursorFollowsText(g, left, start, breaks + |fed| - |lines|, next, Typed(g, s, text[0]), fed, text[1..]);
    }
  }

  lemma CursorHasLine(g: Setting, left: int, start: int, breaks: int, down: int, s: Screen, lines: seq<Line>)
    requires CursorAt(g, left, start, breaks, down, s, lines)
    ensures lines != []
  {
  }
}
