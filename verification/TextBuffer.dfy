/** The terminal demo's TextBuffer: a fixed grid of characters that scrolls in place. */
module TextBuffers {
  import opened Framebuffers

  const NUM_CHARS_WIDE := 52
  const NUM_ROWS := 9
  const MAX_COL_IDX := NUM_CHARS_WIDE - 1
  const MAX_ROW_IDX := NUM_ROWS - 1
  const NEWLINE := 0x0a

  datatype Char = Char(ch: int, foreground: Color, background: Color)

  const CLEARED := Char(0, 0xffff, 0x0000)

  type TextRow = s: seq<Char> | |s| == NUM_CHARS_WIDE witness seq(NUM_CHARS_WIDE, _ => CLEARED)

  function ClearedRow(): TextRow {
    seq(NUM_CHARS_WIDE, _ => CLEARED)
  }

  /** The buffer's fields. */
  datatype State = State(x: int, y: int, wrap: bool, rows: seq<TextRow>) {
    predicate Valid() {
      0 <= x <= NUM_CHARS_WIDE && 0 <= y < NUM_ROWS && |rows| == NUM_ROWS
    }
  }

  const INITIAL := State(0, 0, false, seq(NUM_ROWS, _ => ClearedRow()))

  function NewLined(s: State): (t: State)
    requires s.Valid()
    ensures t.Valid()
  {
    if s.y == MAX_ROW_IDX then s.(x := 0, rows := s.rows[1..] + [ClearedRow()]) else s.(x := 0, y := s.y + 1)
  }

  function Drawn(s: State, ch: Char): (t: State)
    requires s.Valid()
    ensures t.Valid()
  {
    if ch.ch == NEWLINE then NewLined(s)
    else
      var s := if s.wrap && s.x > MAX_COL_IDX then NewLined(s) else s;
      if s.x > MAX_COL_IDX then s else s.(x := s.x + 1, rows := s.rows[s.y := s.rows[s.y][s.x := ch]])
  }

  class TextBuffer {
    var cursorX: int
    var cursorY: int
    var characterWrapEnabled: bool
    const textRows: array<TextRow>

    ghost function Current(): State
      reads this, textRows
    {
      State(cursorX, cursorY, characterWrapEnabled, textRows[..])
    }

    constructor ()
      ensures Current() == INITIAL && Current().Valid() && fresh(textRows)
    {
      cursorX, cursorY, characterWrapEnabled := 0, 0, false;
      textRows := new TextRow[NUM_ROWS](_ => ClearedRow());
    }

    method ScrollUp()
      requires Current().Valid()
      modifies textRows
      ensures Current() == old(Current()).(rows := old(Current()).rows[1..] + [ClearedRow()])
    {
      for r := 0 to MAX_ROW_IDX
        invariant forall k :: 0 <= k < r ==> textRows[k] == old(textRows[k + 1])
        invariant forall k :: r <= k < NUM_ROWS ==> textRows[k] == old(textRows[k])
      {
        textRows[r] := textRows[r + 1];
      }
      textRows[MAX_ROW_IDX] := ClearedRow();
      assert textRows[..] == old(textRows[..])[1..] + [ClearedRow()];
    }

    method InsertNewline()
      requires Current().Valid()
      modifies this`cursorX, this`cursorY, textRows
      ensures Current() == NewLined(old(Current())) && Current().Valid()
    {
      if cursorY == MAX_ROW_IDX {
        ScrollUp();
      } else {
        cursorY := cursorY + 1;
      }
      cursorX := 0;
    }

    method GetChar(x: int, y: int) returns (r: Option<Char>)
      requires Current().Valid()
      ensures r == if 0 <= x < NUM_CHARS_WIDE && 0 <= y < NUM_ROWS then Some(Current().rows[y][x]) else None
    {
      if x < 0 || x > MAX_COL_IDX || y < 0 || y > MAX_ROW_IDX {
        return None;
      }
      r := Some(textRows[y][x]);
    }

    method DrawCharacter(ch: Char)
      requires Current().Valid()
      modifies this`cursorX, this`cursorY, textRows
      ensures Current() == Drawn(old(Current()), ch) && Current().Valid()
    {
      if ch.ch == NEWLINE {
        InsertNewline();
        cursorX := 0;
        return;
      }
      if characterWrapEnabled && cursorX > MAX_COL_IDX {
        InsertNewline();
      }
      if cursorX > MAX_COL_IDX {
        return;
      }
      // the source's own assertions
      assert cursorX >= 0 && cursorY >= 0;
      assert cursorY <= MAX_ROW_IDX;
      assert cursorX <= MAX_COL_IDX;
      textRows[cursorY] := textRows[cursorY][cursorX := ch];
      cursorX := cursorX + 1;
    }
  }

  // ---- What the grid shows ----

  type Line = seq<Char>

  /** The lines of an input: cut at newlines and, if wrapping is on, at the width. */
  function Fed(wrap: bool, lines: seq<Line>, ch: Char): seq<Line>
    requires lines != []
  {
    var last := lines[|lines| - 1];
    if ch.ch == NEWLINE then lines + [[]]
    else if wrap && |last| >= NUM_CHARS_WIDE then lines + [[ch]]
    else lines[|lines| - 1 := last + [ch]]
  }

  function Lines(wrap: bool, input: seq<Char>): (lines: seq<Line>)
    ensures lines != []
  {
    if input == [] then [[]] else Fed(wrap, Lines(wrap, input[..|input| - 1]), input[|input| - 1])
  }

  function DrawnAll(input: seq<Char>, s: State): (t: State)
    requires s.Valid()
    ensures t.Valid()
  {
    if input == [] then s else Drawn(DrawnAll(input[..|input| - 1], s), input[|input| - 1])
  }

  function Visible(lines: seq<Line>): seq<Line> {
    if |lines| <= NUM_ROWS then lines else lines[|lines| - NUM_ROWS..]
  }

  /** What a grid cell shows of a page: the line's character there, if it has one. */
  function CellOf(page: seq<Line>, row: nat, column: nat): Char {
    if row < |page| && column < |page[row]| then page[row][column] else CLEARED
  }

  /** The grid shows the last lines, each cut to the width and padded; the cursor is at the end. */
  predicate Shows(s: State, lines: seq<Line>) {
    && s.Valid() && lines != []
    && var page, length := Visible(lines), |lines[|lines| - 1]|;
       && s.y == |page| - 1
       && s.x == (if length <= NUM_CHARS_WIDE then length else NUM_CHARS_WIDE)
       && forall r, c :: 0 <= r < NUM_ROWS && 0 <= c < NUM_CHARS_WIDE ==> s.rows[r][c] == CellOf(page, r, c)
  }

  lemma NewLineShows(s: State, lines: seq<Line>)
    requires Shows(s, lines)
    ensures Shows(NewLined(s), lines + [[]])
  {
  }

  lemma AppendShows(s: State, lines: seq<Line>, ch: Char)
    requires Shows(s, lines)
    ensures var t := if s.x > MAX_COL_IDX then s else s.(x := s.x + 1, rows := s.rows[s.y := s.rows[s.y][s.x := ch]]);
            Shows(t, lines[|lines| - 1 := lines[|lines| - 1] + [ch]])
  {
  }

  lemma DrawnShows(s: State, lines: seq<Line>, ch: Char)
    requires Shows(s, lines)
    ensures Shows(Drawn(s, ch), Fed(s.wrap, lines, ch))
  {
    var last := lines[|lines| - 1];
    assert s.x > MAX_COL_IDX <==> |last| >= NUM_CHARS_WIDE;
    hide Shows;
    NewLineShows(s, lines);
    if s.wrap && |last| >= NUM_CHARS_WIDE {
      var broken := lines + [[]];
      AppendShows(NewLined(s), broken, ch);
      assert broken[|broken| - 1] + [ch] == [ch];
      assert broken[|broken| - 1 := [ch]] == lines + [[ch]];
    } else {
      AppendShows(s, lines, ch);
    }
  }

  /** After any input: the grid is the last nine lines, whether or not wrapping is on. */
  lemma {:induction false} GridIsTheLastLines(input: seq<Char>, s: State)
    requires s == INITIAL.(wrap := s.wrap)
    ensures Shows(DrawnAll(input, s), Lines(s.wrap, input)) && DrawnAll(input, s).wrap == s.wrap
  {
    if input == [] {
    } else {
      GridIsTheLastLines(input[..|input| - 1], s);
      DrawnShows(DrawnAll(input[..|input| - 1], s), Lines(s.wrap, input[..|input| - 1]), input[|input| - 1]);
    }
  }

  // ---- The lines, said without the steps ----

  /** An input split at its newlines. */
  function Split(input: seq<Char>): (ps: seq<Line>)
    ensures ps != []
  {
    if input == [] then [[]]
    else
      var rest := Split(input[1..]);
      if input[0].ch == NEWLINE then [[]] + rest else [[input[0]] + rest[0]] + rest[1..]
  }

  /** A paragraph cut into pieces of `n`, the last one shorter if need be. */
  function Chunks(p: Line, n: nat): (lines: seq<Line>)
    requires 0 < n
    ensures lines != []
    decreases |p|
  {
    if |p| <= n then [p] else [p[..n]] + Chunks(p[n..], n)
  }

  function AllChunks(ps: seq<Line>, n: nat): seq<Line>
    requires 0 < n
  {
    if ps == [] then [] else AllChunks(ps[..|ps| - 1], n) + Chunks(ps[|ps| - 1], n)
  }

  lemma {:induction false} SplitMore(input: seq<Char>, ch: Char)
    ensures var ps := Split(input);
            Split(input + [ch]) ==
            if ch.ch == NEWLINE then ps + [[]] else ps[|ps| - 1 := ps[|ps| - 1] + [ch]]
  {
    if input == [] {
      var one := input + [ch];
      assert one[0] == ch && one[1..] == [];
      assert Split(one[1..]) == [[]];
      assert [ch] + [] == [] + [ch] == [ch];
      assert [[ch]] + [[]][1..] == [[]][0 := [ch]];
    } else {
      assert (input + [ch])[1..] == input[1..] + [ch];
      SplitMore(input[1..], ch);
      var rest := Split(input[1..]);
      LastOfLonger([], rest, ch);
      LastOfFirst(input[0], rest, ch);
      assert input[0] == (input + [ch])[0];
    }
  }

  lemma LastOfLonger(line: Line, lines: seq<Line>, ch: Char)
    requires lines != []
    ensures var m := |lines| - 1;
            ([line] + lines)[m + 1 := lines[m] + [ch]] == [line] + lines[m := lines[m] + [ch]]
  {
  }

  lemma LastOfFirst(first: Char, lines: seq<Line>, ch: Char)
    requires lines != []
    ensures var m, more := |lines| - 1, [[first] + lines[0]] + lines[1..];
            var after := lines[m := lines[m] + [ch]];
            && |more| == |lines|
            && more[m := more[m] + [ch]] == [[first] + after[0]] + after[1..]
            && [[first] + lines[0]] + (lines + [[]])[1..] == more + [[]]
  {
    var m := |lines| - 1;
    if m == 0 {
      assert [first] + (lines[0] + [ch]) == [first] + lines[0] + [ch];
    } else {
      assert lines[m := lines[m] + [ch]][1..] == lines[1..][m - 1 := lines[m] + [ch]];
    }
  }

  lemma {:induction false} ChunksMore(p: Line, n: nat, ch: Char)
    requires 0 < n
    ensures var lines := Chunks(p, n);
            var last := lines[|lines| - 1];
            Chunks(p + [ch], n) == if n <= |last| then lines + [[ch]] else lines[|lines| - 1 := last + [ch]]
    decreases |p|
  {
    if |p| < n {
    } else if |p| == n {
      assert (p + [ch])[..n] == p && (p + [ch])[n..] == [ch];
    } else {
      assert (p + [ch])[..n] == p[..n] && (p + [ch])[n..] == p[n..] + [ch];
      ChunksMore(p[n..], n, ch);
      LastOfLonger(p[..n], Chunks(p[n..], n), ch);
    }
  }

  lemma LastOfAll(before: seq<Line>, lines: seq<Line>, ch: Char)
    requires lines != []
    ensures var all, m := before + lines, |lines| - 1;
            && all[|all| - 1] == lines[m]
            && all[|all| - 1 := lines[m] + [ch]] == before + lines[m := lines[m] + [ch]]
            && all + [[ch]] == before + (lines + [[ch]])
  {
  }

  /** The lines of an input are its paragraphs, cut at the width if wrapping is on. */
  lemma {:induction false} LinesAreParagraphs(wrap: bool, input: seq<Char>)
    ensures Lines(wrap, input) == if wrap then AllChunks(Split(input), NUM_CHARS_WIDE) else Split(input)
  {
    if input == [] {
      var nothing: seq<Line> := [[]];
      assert nothing[..0] == [];
      assert AllChunks(nothing, NUM_CHARS_WIDE) == [] + [[]];
    } else {
      var front, ch := input[..|input| - 1], input[|input| - 1];
      assert input == front + [ch];
      LinesAreParagraphs(wrap, front);
      SplitMore(front, ch);
      if wrap {
        FedIsChunks(Split(front), ch);
      }
    }
  }

  lemma FedIsChunks(ps: seq<Line>, ch: Char)
    requires ps != []
    ensures var n := NUM_CHARS_WIDE;
            var more := if ch.ch == NEWLINE then ps + [[]] else ps[|ps| - 1 := ps[|ps| - 1] + [ch]];
            AllChunks(ps, n) != [] && Fed(true, AllChunks(ps, n), ch) == AllChunks(more, n)
  {
    var n, m := NUM_CHARS_WIDE, |ps| - 1;
    var before, lines := AllChunks(ps[..m], n), Chunks(ps[m], n);
    if ch.ch == NEWLINE {
      assert (ps + [[]])[..|ps|] == ps;
    } else {
      var more := ps[m := ps[m] + [ch]];
      assert more[..m] == ps[..m];
      ChunksMore(ps[m], n, ch);
      LastOfAll(before, lines, ch);
    }
  }

  /** A new buffer: nine rows of 52 characters that show the last nine lines, cut only at
      newlines, each up to its 52nd character and cleared after its end. */
  lemma NewBufferShows(input: seq<Char>, r: nat, c: nat)
    requires r < 9 && c < 52
    ensures var t, lines := DrawnAll(input, INITIAL), Split(input);
            var row := r + (if 9 < |lines| then |lines| - 9 else 0);
            && |t.rows| == 9 && |t.rows[r]| == 52
            && t.rows[r][c] == if row < |lines| && c < |lines[row]| then lines[row][c] else Char(0, 0xffff, 0)
  {
    hide Split, Lines, DrawnAll, Drawn;
    GridIsTheLastLines(input, INITIAL);
    LinesAreParagraphs(false, input);
  }

  /** The same once wrapping has been turned on: lines are also cut after their 52nd character. */
  lemma WrappingBufferShows(input: seq<Char>, r: nat, c: nat)
    requires r < 9 && c < 52
    ensures var t, lines := DrawnAll(input, INITIAL.(wrap := true)), AllChunks(Split(input), 52);
            var row := r + (if 9 < |lines| then |lines| - 9 else 0);
            && |t.rows| == 9 && |t.rows[r]| == 52
            && t.rows[r][c] == if row < |lines| && c < |lines[row]| then lines[row][c] else Char(0, 0xffff, 0)
  {
    hide Split, Lines, DrawnAll, Drawn, AllChunks;
    GridIsTheLastLines(input, INITIAL.(wrap := true));
    LinesAreParagraphs(true, input);
  }
}
