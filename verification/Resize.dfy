/** Display::UpdateNearestNeighbor: a framebuffer is sent to a display of another size, row by
    row, through a buffer of 80 pixels. */
module Resize {
  import opened Framebuffers

  const RESIZE_BUFFER_PIXELS := 80

  /** One WriteRow call that the driver accepted. */
  datatype Span = Span(row: int, col: int, pixels: seq<Color>)

  /** One display pixel written. */
  datatype Dot = Dot(row: int, col: int, color: Color)

  datatype Status = Ok | Internal | DriverError

  /** What UpdateNearestNeighbor reads: pixels with a row stride, and the two sizes. */
  datatype Job = Job(pixels: seq<Color>, stride: nat, width: U16, height: U16, displayWidth: U16, displayHeight: U16)

  /** The source row or column shown at display row or column `dst`. */
  function SourceIndex(dst: int, sourceLast: int, displayCount: int): int
    requires displayCount != 1
  {
    dst * sourceLast / (displayCount - 1)
  }

  /** What the arithmetic needs: no division by zero and no int overflow. */
  predicate Defined(j: Job) {
    && 0 < j.width && 0 < j.height
    && (j.displayHeight != 0 ==> j.displayHeight != 1 && j.displayWidth != 1)
    && (j.displayHeight - 1) * (j.height - 1) <= MAX_INT && (j.displayWidth - 1) * (j.width - 1) <= MAX_INT
    && (j.height - 1) * j.stride + j.width <= |j.pixels| && (j.height - 1) * j.stride + j.width - 1 <= MAX_INT
  }

  lemma SourceIndexInRange(dst: int, sourceLast: nat, displayCount: int)
    requires 0 <= dst < displayCount && 1 < displayCount
    ensures 0 <= SourceIndex(dst, sourceLast, displayCount) <= sourceLast
  {
    MulMono(dst, displayCount - 1, sourceLast);
    var n := displayCount - 1;
    DivBetween(dst * sourceLast, sourceLast, n);
  }

  lemma DivBetween(a: nat, b: nat, n: nat)
    requires 0 < n && a <= n * b
    ensures 0 <= a / n <= b
  {
    MulMono(b + 1, a / n, n);
  }

  /** The direct map: which colour belongs at a display pixel. */
  function Mapped(j: Job, row: int, col: int): Color
    requires Defined(j) && 0 <= row < j.displayHeight && 0 <= col < j.displayWidth
  {
    var sr, sc := SourceIndex(row, j.height - 1, j.displayHeight), SourceIndex(col, j.width - 1, j.displayWidth);
    SourceIndexInRange(row, j.height - 1, j.displayHeight);
    SourceIndexInRange(col, j.width - 1, j.displayWidth);
    MulMono(0, sr, j.stride);
    MulMono(sr, j.height - 1, j.stride);
    j.pixels[sr * j.stride + sc]
  }

  lemma MappedIndex(j: Job, row: int, col: int)
    requires Defined(j) && 0 <= row < j.displayHeight && 0 <= col < j.displayWidth
    ensures j.displayHeight != 1 && j.displayWidth != 1
    ensures var i := SourceIndex(row, j.height - 1, j.displayHeight) * j.stride
                     + SourceIndex(col, j.width - 1, j.displayWidth);
            0 <= i < |j.pixels| && Mapped(j, row, col) == j.pixels[i]
  {
    var sr := SourceIndex(row, j.height - 1, j.displayHeight);
    SourceIndexInRange(row, j.height - 1, j.displayHeight);
    SourceIndexInRange(col, j.width - 1, j.displayWidth);
    MulMono(0, sr, j.stride);
    MulMono(sr, j.height - 1, j.stride);
  }

  /** The colours of display row `row` from column `from` up to `to`. */
  function RowColors(j: Job, row: int, from: int, to: int): (r: seq<Color>)
    requires Defined(j) && 0 <= row < j.displayHeight && 0 <= from <= to <= j.displayWidth
    ensures |r| == to - from
  {
    seq<Color>(to - from, i requires 0 <= i < to - from => Mapped(j, row, from + i))
  }

  function Dots(row: int, col: int, pixels: seq<Color>): (r: seq<Dot>)
    ensures |r| == |pixels|
  {
    seq(|pixels|, i requires 0 <= i < |pixels| => Dot(row, col + i, pixels[i]))
  }

  /** Every pixel of the first `rows` display rows, in reading order. */
  function Direct(j: Job, rows: nat): seq<Dot>
    requires Defined(j) && rows <= j.displayHeight
  {
    if rows == 0 then [] else Direct(j, rows - 1) + Dots(rows - 1, 0, RowColors(j, rows - 1, 0, j.displayWidth))
  }

  /** The pixels written by a list of row writes, in order. */
  function Written(log: seq<Span>): seq<Dot> {
    if log == [] then []
    else
      var last := log[|log| - 1];
      Written(log[..|log| - 1]) + Dots(last.row, last.col, last.pixels)
  }

  /** Every write is of 80 pixels, or of what is left of a row. */
  predicate FullSpans(log: seq<Span>, displayWidth: int) {
    forall i :: 0 <= i < |log| ==>
      var n := |log[i].pixels|;
      1 <= n <= 80 && (n == 80 || log[i].col + n == displayWidth)
  }

  lemma WrittenOneMore(log: seq<Span>, s: Span)
    ensures Written(log + [s]) == Written(log) + Dots(s.row, s.col, s.pixels)
  {
    assert (log + [s])[..|log|] == log;
  }

  /** Two adjoining stretches of a row. */
  lemma RowColorsJoin(j: Job, row: int, from: int, mid: int, to: int)
    requires Defined(j) && 0 <= row < j.displayHeight && 0 <= from <= mid <= to <= j.displayWidth
    ensures RowColors(j, row, from, to) == RowColors(j, row, from, mid) + RowColors(j, row, mid, to)
  {
  }

  lemma DotsJoin(row: int, col: int, a: seq<Color>, b: seq<Color>)
    ensures Dots(row, col, a + b) == Dots(row, col, a) + Dots(row, col + |a|, b)
  {
  }

  lemma {:induction false} DirectPrefix(j: Job, rows: nat, more: nat)
    requires Defined(j) && rows <= more <= j.displayHeight
    ensures Direct(j, rows) <= Direct(j, more)
    decreases more
  {
    if rows >= more {
    } else {
      DirectPrefix(j, rows, more - 1);
    }
  }

  /** What has been written part-way through a row is a prefix of the whole. */
  lemma PartialRowIsPrefix(j: Job, row: nat, col: nat)
    requires Defined(j) && row < j.displayHeight && col <= j.displayWidth
    ensures Direct(j, row) + Dots(row, 0, RowColors(j, row, 0, col)) <= Direct(j, j.displayHeight)
  {
    DirectPrefix(j, row + 1, j.displayHeight);
    RowColorsJoin(j, row, 0, col, j.displayWidth);
    DotsJoin(row, 0, RowColors(j, row, 0, col), RowColors(j, row, col, j.displayWidth));
  }

  /** A display driver: `accepts` says which of its calls succeed. */
  class DisplayDriver {
    const accepts: nat -> bool
    var calls: nat
    var log: seq<Span>

    constructor (accepts: nat -> bool)
      ensures this.accepts == accepts && calls == 0 && log == []
    {
      this.accepts, calls, log := accepts, 0, [];
    }

    method WriteRow(pixels: seq<Color>, row: int, col: int) returns (ok: bool)
      modifies this
      ensures ok == accepts(old(calls)) && calls == old(calls) + 1
      ensures log == if ok then old(log) + [Span(row, col, pixels)] else old(log)
    {
      ok := accepts(calls);
      calls := calls + 1;
      if ok {
        log := log + [Span(row, col, pixels)];
      }
    }
  }

  /** The row writes made since the log was `base`. */
  function Since(base: seq<Span>, log: seq<Span>): seq<Span> {
    if |base| <= |log| then log[|base|..] else []
  }

  /** The log has grown from `base` by writes that cover whole rows up to `row` and `col` columns
      of that one, exactly as the direct map says. */
  ghost predicate SentSoFar(j: Job, base: seq<Span>, log: seq<Span>, row: nat, col: nat)
    requires Defined(j) && row < j.displayHeight && col <= j.displayWidth
  {
    && base <= log && FullSpans(Since(base, log), j.displayWidth)
    && Written(Since(base, log)) == Direct(j, row) + Dots(row, 0, RowColors(j, row, 0, col))
  }

  ghost predicate RowsSent(j: Job, base: seq<Span>, log: seq<Span>, rows: nat)
    requires Defined(j) && rows <= j.displayHeight
  {
    base <= log && FullSpans(Since(base, log), j.displayWidth) && Written(Since(base, log)) == Direct(j, rows)
  }

  lemma FlushKeeps(j: Job, base: seq<Span>, log: seq<Span>, row: nat, col: nat, next: nat)
    requires Defined(j) && row < j.displayHeight && col + next <= j.displayWidth
    requires 1 <= next <= RESIZE_BUFFER_PIXELS && (next == RESIZE_BUFFER_PIXELS || col + next == j.displayWidth)
    requires SentSoFar(j, base, log, row, col)
    ensures SentSoFar(j, base, log + [Span(row, col, RowColors(j, row, col, col + next))], row, col + next)
  {
    hide RowColors, Dots, Direct, Mapped, Defined, Written;
    var span := Span(row, col, RowColors(j, row, col, col + next));
    WrittenOneMore(Since(base, log), span);
    assert Since(base, log + [span]) == Since(base, log) + [span];
    RowColorsJoin(j, row, 0, col, col + next);
    DotsJoin(row, 0, RowColors(j, row, 0, col), span.pixels);
  }

  /** One more row is complete. */
  lemma RowDone(j: Job, base: seq<Span>, log: seq<Span>, row: nat)
    requires Defined(j) && row < j.displayHeight
    requires SentSoFar(j, base, log, row, j.displayWidth)
    ensures RowsSent(j, base, log, row + 1)
  {
  }

  lemma RowStarts(j: Job, base: seq<Span>, log: seq<Span>, row: nat)
    requires Defined(j) && row < j.displayHeight
    requires RowsSent(j, base, log, row)
    ensures SentSoFar(j, base, log, row, 0)
  {
    assert Dots(row, 0, RowColors(j, row, 0, 0)) == [];
  }

  function JobOf(fb: Framebuffer, rowBytes: U16, displayWidth: U16, displayHeight: U16): Job
    reads fb.data
  {
    Job(fb.data[..], rowBytes / 2, fb.width, fb.height, displayWidth, displayHeight)
  }

  /** The pixel that the inner loop puts in its buffer. */
  method SourcePixel(fb: Framebuffer, rowBytes: U16, displayWidth: U16, displayHeight: U16, row: int, col: int)
    returns (color: Color)
    requires Defined(JobOf(fb, rowBytes, displayWidth, displayHeight))
    requires 0 <= row < displayHeight && 0 <= col < displayWidth
    ensures color == Mapped(JobOf(fb, rowBytes, displayWidth, displayHeight), row, col)
  {
    MappedIndex(JobOf(fb, rowBytes, displayWidth, displayHeight), row, col);
    hide Mapped, Defined, SourceIndex;
    var sourceRow := SourceIndex(row, fb.height - 1, displayHeight);
    var sourceCol := SourceIndex(col, fb.width - 1, displayWidth);
    color := fb.data[sourceRow * (rowBytes / 2) + sourceCol];
  }

  /** Hands part of the buffer to the driver. */
  method Flush(driver: DisplayDriver, buffer: array<Color>, next: nat, row: nat, col: nat,
               ghost j: Job, ghost base: seq<Span>)
    returns (ok: bool)
    requires 1 <= next <= RESIZE_BUFFER_PIXELS == buffer.Length
    requires Defined(j) && row < j.displayHeight && col + next <= j.displayWidth
    requires next == RESIZE_BUFFER_PIXELS || col + next == j.displayWidth
    requires SentSoFar(j, base, driver.log, row, col)
    requires buffer[..next] == RowColors(j, row, col, col + next)
    modifies driver
    ensures driver.calls == old(driver.calls) + 1
    ensures ok ==> SentSoFar(j, base, driver.log, row, col + next)
    ensures !ok ==> Stopped(j, base, driver.log) && !driver.accepts(driver.calls - 1)
  {
    PartialRowIsPrefix(j, row, col);
    FlushKeeps(j, base, driver.log, row, col, next);
    ok := driver.WriteRow(buffer[..next], row, col);
  }

  /** How a failed write leaves things: a prefix of the picture has been written. */
  ghost predicate Stopped(j: Job, base: seq<Span>, log: seq<Span>)
    requires Defined(j)
  {
    && base <= log && FullSpans(Since(base, log), j.displayWidth)
    && Written(Since(base, log)) <= Direct(j, j.displayHeight)
  }

  /** The inner loop and the flush after it. */
  method ResizeRow(fb: Framebuffer, rowBytes: U16, displayWidth: U16, displayHeight: U16,
                   driver: DisplayDriver, buffer: array<Color>, row: nat, ghost base: seq<Span>)
    returns (ok: bool)
    requires buffer.Length == RESIZE_BUFFER_PIXELS && buffer != fb.data
    requires var j := JobOf(fb, rowBytes, displayWidth, displayHeight);
             Defined(j) && row < displayHeight && SentSoFar(j, base, driver.log, row, 0)
    modifies driver, buffer
    ensures driver.calls >= old(driver.calls)
    ensures var j := JobOf(fb, rowBytes, displayWidth, displayHeight);
            if ok then SentSoFar(j, base, driver.log, row, displayWidth)
            else Stopped(j, base, driver.log) && driver.calls > old(driver.calls) && !driver.accepts(driver.calls - 1)
  {
    ghost var j := JobOf(fb, rowBytes, displayWidth, displayHeight);
    hide SentSoFar, RowColors, Defined, Stopped, Mapped;
    var next, writeCol := 0, 0;
    RowColorsEmpty(j, row, 0);
    for col := 0 to displayWidth
      invariant j == JobOf(fb, rowBytes, displayWidth, displayHeight)
      invariant 0 <= next < RESIZE_BUFFER_PIXELS && 0 <= writeCol && writeCol + next == col
      invariant driver.calls >= old(driver.calls)
      invariant SentSoFar(j, base, driver.log, row, writeCol)
      invariant buffer[..next] == RowColors(j, row, writeCol, col)
    {
      buffer[next] := SourcePixel(fb, rowBytes, displayWidth, displayHeight, row, col);
      RowColorsOneMore(j, row, writeCol, col);
      next := next + 1;
      if next == RESIZE_BUFFER_PIXELS {
        ok := Flush(driver, buffer, next, row, writeCol, j, base);
        if !ok {
          return;
        }
        next := 0;
        writeCol := writeCol + RESIZE_BUFFER_PIXELS;
        RowColorsEmpty(j, row, writeCol);
      }
    }
    ok := true;
    if next != 0 {
      ok := Flush(driver, buffer, next, row, writeCol, j, base);
    }
  }

  lemma RowColorsEmpty(j: Job, row: int, col: int)
    requires Defined(j) && 0 <= row < j.displayHeight && 0 <= col <= j.displayWidth
    ensures RowColors(j, row, col, col) == []
  {
  }

  lemma RowColorsOneMore(j: Job, row: int, from: int, to: int)
    requires Defined(j) && 0 <= row < j.displayHeight && 0 <= from <= to < j.displayWidth
    ensures RowColors(j, row, from, to + 1) == RowColors(j, row, from, to) + [Mapped(j, row, to)]
  {
  }

  // ---- What the pixels are ----

  /** Source row or column `s` is the one to show at `dst`: the last that does not lie beyond it
      when both are scaled to start and end together. */
  predicate IsSource(s: nat, dst: nat, count: nat, displayCount: nat) {
    s < count && s * (displayCount - 1) <= dst * (count - 1) < (s + 1) * (displayCount - 1)
  }

  /** The pixels written are the picture at the display's size, in reading order. */
  ghost predicate IsResized(dots: seq<Dot>, pixels: seq<Color>, stride: nat, width: nat, height: nat,
                            displayWidth: nat, displayHeight: nat)
  {
    && |dots| == displayHeight * displayWidth
    && forall row: nat, col: nat, sr: nat, sc: nat ::
         row < displayHeight && col < displayWidth
         && IsSource(sr, row, height, displayHeight) && IsSource(sc, col, width, displayWidth) ==>
           0 <= row * displayWidth + col < |dots|
           && dots[row * displayWidth + col] == Dot(row, col, At(pixels, sr * stride + sc))
  }

  /** The division truncates: it gives the one source row or column to show. */
  lemma SourceIndexIsSource(dst: nat, count: nat, displayCount: nat)
    requires 0 < count && dst < displayCount && 1 < displayCount
    ensures 0 <= SourceIndex(dst, count - 1, displayCount)
    ensures IsSource(SourceIndex(dst, count - 1, displayCount), dst, count, displayCount)
  {
    var n, a := displayCount - 1, dst * (count - 1);
    MulMono(0, count - 1, dst);
    SourceIndexInRange(dst, count - 1, displayCount);
    assert a == (a / n) * n + a % n;
    assert (a / n + 1) * n == (a / n) * n + n;
  }

  lemma SourceIsUnique(s: nat, t: nat, dst: nat, count: nat, displayCount: nat)
    requires 1 < displayCount && IsSource(s, dst, count, displayCount) && IsSource(t, dst, count, displayCount)
    ensures s == t
  {
    MulMono(s + 1, t, displayCount - 1);
    MulMono(t + 1, s, displayCount - 1);
  }

  lemma {:induction false} DirectAt(j: Job, rows: nat, row: nat, col: nat)
    requires Defined(j) && rows <= j.displayHeight
    ensures |Direct(j, rows)| == rows * j.displayWidth
    ensures row < rows && col < j.displayWidth ==>
              0 <= row * j.displayWidth + col < |Direct(j, rows)|
              && Direct(j, rows)[row * j.displayWidth + col] == Dot(row, col, Mapped(j, row, col))
    decreases rows
  {
    if rows == 0 {
    } else {
      hide Defined, Mapped;
      DirectAt(j, rows - 1, row, col);
      var before, line := Direct(j, rows - 1), Dots(rows - 1, 0, RowColors(j, rows - 1, 0, j.displayWidth));
      assert rows * j.displayWidth == (rows - 1) * j.displayWidth + j.displayWidth;
      assert Direct(j, rows) == before + line;
      if row == rows - 1 && col < j.displayWidth {
        assert (before + line)[|before| + col] == line[col];
      }
    }
  }

  lemma DirectIsResized(j: Job)
    requires Defined(j)
    ensures IsResized(Direct(j, j.displayHeight), j.pixels, j.stride, j.width, j.height,
                      j.displayWidth, j.displayHeight)
  {
    DirectAt(j, j.displayHeight, 0, 0);
    forall row: nat, col: nat, sr: nat, sc: nat |
      row < j.displayHeight && col < j.displayWidth
      && IsSource(sr, row, j.height, j.displayHeight) && IsSource(sc, col, j.width, j.displayWidth)
      ensures 0 <= row * j.displayWidth + col < |Direct(j, j.displayHeight)|
      ensures Direct(j, j.displayHeight)[row * j.displayWidth + col] == Dot(row, col, At(j.pixels, sr * j.stride + sc))
    {
      MappedIndex(j, row, col);
      DirectAt(j, j.displayHeight, row, col);
      SourceIndexIsSource(row, j.height, j.displayHeight);
      SourceIndexIsSource(col, j.width, j.displayWidth);
      SourceIsUnique(sr, SourceIndex(row, j.height - 1, j.displayHeight), row, j.height, j.displayHeight);
      SourceIsUnique(sc, SourceIndex(col, j.width - 1, j.displayWidth), col, j.width, j.displayWidth);
      hide Mapped, Direct, SourceIndex, IsSource;
    }
    hide Mapped, Direct, SourceIndex, IsSource, Defined;
  }

  /** Writes every display pixel once, in reading order, in spans of 80 pixels or to the end of a
      row, with the colours of the direct map; after a failed row write, a prefix of that. */
  method UpdateNearestNeighbor(fb: Framebuffer, rowBytes: U16, displayWidth: U16, displayHeight: U16,
                               driver: DisplayDriver)
    returns (status: Status)
    requires 0 < fb.width && 0 < fb.height ==> Defined(JobOf(fb, rowBytes, displayWidth, displayHeight))
    modifies driver
    ensures fb.width == 0 || fb.height == 0 <==> status == Internal
    ensures status == Internal ==> driver.log == old(driver.log) && driver.calls == old(driver.calls)
    ensures old(driver.log) <= driver.log && FullSpans(Since(old(driver.log), driver.log), displayWidth)
    ensures status != Internal ==>
              var j, writes := JobOf(fb, rowBytes, displayWidth, displayHeight), Since(old(driver.log), driver.log);
              if status == Ok then Written(writes) == Direct(j, displayHeight)
              else Written(writes) <= Direct(j, displayHeight)
                   && driver.calls > old(driver.calls) && !driver.accepts(driver.calls - 1)
    ensures status == Ok ==>
              IsResized(Written(Since(old(driver.log), driver.log)), fb.data[..], rowBytes / 2, fb.width, fb.height,
                        displayWidth, displayHeight)
  {
    if fb.width == 0 || fb.height == 0 {
      return Internal;
    }
    ghost var j, base := JobOf(fb, rowBytes, displayWidth, displayHeight), driver.log;
    hide RowColors, Defined, Mapped, Direct, IsResized;
    DirectNothing(j);
    DirectIsResized(j);
    var resizeBuffer := new Color[RESIZE_BUFFER_PIXELS](_ => 0);
    for row := 0 to displayHeight
      invariant j == JobOf(fb, rowBytes, displayWidth, displayHeight)
      invariant driver.calls >= old(driver.calls)
      invariant RowsSent(j, base, driver.log, row)
    {
      RowStarts(j, base, driver.log, row);
      var ok := ResizeRow(fb, rowBytes, displayWidth, displayHeight, driver, resizeBuffer, row, base);
      if !ok {
        return DriverError;
      }
      RowDone(j, base, driver.log, row);
    }
    return Ok;
  }

  lemma DirectNothing(j: Job)
    requires Defined(j)
    ensures Direct(j, 0) == []
  {
  }

  // ---- The index map ----

  /** In range and monotone. */
  lemma SourceIndexIsMonotone(a: int, b: int, sourceLast: nat, displayCount: int)
    requires 0 <= a <= b < displayCount && 1 < displayCount
    ensures 0 <= SourceIndex(a, sourceLast, displayCount) <= SourceIndex(b, sourceLast, displayCount) <= sourceLast
  {
    SourceIndexInRange(a, sourceLast, displayCount);
    SourceIndexInRange(b, sourceLast, displayCount);
    MulMono(a, b, sourceLast);
    DivMono(a * sourceLast, b * sourceLast, displayCount - 1);
  }

  /** First to first, last to last, and the identity at equal sizes. */
  lemma SourceIndexFixesEnds(a: nat, sourceLast: nat, displayCount: int)
    requires a < displayCount && 1 < displayCount
    ensures SourceIndex(0, sourceLast, displayCount) == 0
    ensures SourceIndex(displayCount - 1, sourceLast, displayCount) == sourceLast
    ensures sourceLast == displayCount - 1 ==> SourceIndex(a, sourceLast, displayCount) == a
  {
    DivExact(sourceLast, displayCount - 1);
    DivExact(a, displayCount - 1);
  }

  lemma DivMono(a: nat, b: nat, n: nat)
    requires 0 < n && a <= b
    ensures a / n <= b / n
  {
    MulMono(b / n + 1, a / n, n);
  }

  lemma DivExact(k: nat, n: nat)
    requires 0 < n
    ensures n * k / n == k && k * n / n == k
  {
    assert n * k == k * n + 0;
    RowOfIndex(0, k, n);
  }

  /** On a display at least as large as the framebuffer, no source row or column is skipped. */
  lemma NoSourceIndexIsSkipped(s: nat, sourceLast: nat, displayCount: int) returns (dst: int)
    requires s <= sourceLast < displayCount && 1 < displayCount
    ensures 0 <= dst < displayCount && SourceIndex(dst, sourceLast, displayCount) == s
  {
    var n := displayCount - 1;
    if sourceLast == 0 {
      dst := 0;
    } else {
      // the least dst with s * n <= dst * sourceLast
      dst := (s * n + sourceLast - 1) / sourceLast;
      var x := s * n + sourceLast - 1;
      assert x == dst * sourceLast + x % sourceLast;
      assert s * n <= dst * sourceLast <= s * n + sourceLast - 1;
      QuotientIs(dst * sourceLast, s, n);
      AtMost(dst, s, sourceLast, n);
    }
  }

  lemma QuotientIs(a: nat, s: nat, n: nat)
    requires 0 < n && s * n <= a < s * n + n
    ensures a / n == s
  {
    RowOfIndex(a - s * n, s, n);
  }

  lemma AtMost(dst: int, s: nat, sourceLast: nat, n: nat)
    requires s <= sourceLast && 0 < sourceLast
    requires dst * sourceLast <= s * n + sourceLast - 1
    ensures dst <= n
  {
    MulMono(s, sourceLast, n);
    MulMono(n + 1, dst, sourceLast);
  }
}
