/** What a pixel-doubled frame should look like, and the words that the DMA channel fetches
    for it: the interrupt handler asks for one row, then for pairs of rows, then for the last. */
module Doubling {
  import opened Framebuffers
  import opened BitStrings
  import opened Pio
  import opened Pusher

  // ---- The image that should appear ----

  function PixelBits(ps: seq<U16>): seq<bool> {
    if ps == [] then [] else Bits(ps[0], 16) + PixelBits(ps[1..])
  }

  function Concat(lines: seq<seq<U16>>): seq<U16> {
    if lines == [] then [] else lines[0] + Concat(lines[1..])
  }

  /** `lines`, top to bottom, is the row-major picture `mem` at twice the size both ways. */
  ghost predicate IsDoubled(lines: seq<seq<U16>>, mem: seq<U16>, width: nat, height: nat)
    requires width * height <= |mem|
  {
    && |lines| == 2 * height
    && forall l :: 0 <= l < 2 * height ==>
         && |lines[l]| == 2 * width
         && forall c :: 0 <= c < 2 * width ==>
              (IndexInRange(c / 2, l / 2, width, height);
               lines[l][c] == mem[l / 2 * width + c / 2])
  }

  // ---- The words the DMA channel fetches ----

  /** Memory outside the framebuffer reads as anything; no read will fall there. */
  function Fetch(mem: seq<U16>, i: int): U16 {
    if 0 <= i < |mem| then mem[i] else 0
  }

  /** A 32-bit little-endian load from pixel offset `i`. */
  function WordAt(mem: seq<U16>, i: int): Word {
    Bits(Fetch(mem, i) + 65536 * Fetch(mem, i + 1), 32)
  }

  function WordsFrom(mem: seq<U16>, offset: int, n: nat): seq<Word>
    decreases n
  {
    if n == 0 then [] else [WordAt(mem, offset)] + WordsFrom(mem, offset + 2, n - 1)
  }

  /** What is still to be fetched for scanlines `line` and later, each started by one interrupt. */
  function Later(mem: seq<U16>, width: U16, height: U16, line: nat): seq<Word>
    decreases ToU16(height * 2) - line
  {
    var fbWidth, fbHeight := ToU16(width * 2), ToU16(height * 2);
    if line > fbHeight / 2 then []
    else
      var count := if line == (fbHeight + 1) / 2 then fbWidth / 4 else fbWidth / 2;
      WordsFrom(mem, RowOffset(line, fbWidth), count) + Later(mem, width, height, line + 1)
  }

  lemma LaterUnfolds(mem: seq<U16>, width: U16, height: U16, line: nat)
    ensures var fbWidth, fbHeight := ToU16(width * 2), ToU16(height * 2);
            var count := if line == (fbHeight + 1) / 2 then fbWidth / 4 else fbWidth / 2;
            Later(mem, width, height, line) ==
            if line > fbHeight / 2 then []
            else WordsFrom(mem, RowOffset(line, fbWidth), count) + Later(mem, width, height, line + 1)
  {
  }

  function FrameWords(mem: seq<U16>, width: U16, height: U16): seq<Word> {
    WordsFrom(mem, 0, width * 2 / 4) + Later(mem, width, height, 1)
  }

  /** The handler doubles sizes in 16 bits and halves them again. */
  lemma HalfOfDoubled(i: U16)
    ensures var d := ToU16(i * 2);
            && d / 2 == (d + 1) / 2 == (if i < 32768 then i else i - 32768)
            && d / 4 == d / 2 / 2
            && (i % 2 == 0 ==> d / 2 % 2 == 0)
  {
  }

  // ---- The words of a frame are the picture at twice the size ----

  function Twice(ps: seq<U16>): (r: seq<U16>)
    ensures |r| == 2 * |ps|
  {
    if ps == [] then [] else [ps[0], ps[0]] + Twice(ps[1..])
  }

  lemma {:induction false} TwiceAt(ps: seq<U16>, i: nat)
    requires i < 2 * |ps|
    ensures Twice(ps)[i] == ps[i / 2]
  {
    if i < 2 {
    } else {
      TwiceAt(ps[1..], i - 2);
      assert Twice(ps)[i] == Twice(ps[1..])[i - 2];
    }
  }

  lemma {:induction false} TwiceConcat(a: seq<U16>, b: seq<U16>)
    ensures Twice(a + b) == Twice(a) + Twice(b)
  {
    if a == [] {
      assert a + b == b;
    } else {
      assert (a + b)[1..] == a[1..] + b;
      TwiceConcat(a[1..], b);
      assert Twice(a + b) == [a[0], a[0]] + Twice(a[1..] + b);
    }
  }

  lemma {:induction false} PixelBitsConcat(a: seq<U16>, b: seq<U16>)
    ensures PixelBits(a + b) == PixelBits(a) + PixelBits(b)
  {
    if a == [] {
      assert a + b == b;
    } else {
      hide Bits;
      assert (a + b)[1..] == a[1..] + b;
      PixelBitsConcat(a[1..], b);
      assert PixelBits(a + b) == Bits(a[0], 16) + PixelBits(a[1..] + b);
    }
  }

  lemma {:induction false} PixelBitsLength(a: seq<U16>)
    ensures |PixelBits(a)| == 16 * |a|
  {
    if a == [] {
    } else {
      PixelBitsLength(a[1..]);
    }
  }

  lemma {:induction false} DoubledWordsConcat(a: seq<Word>, b: seq<Word>)
    ensures DoubledWords(a + b) == DoubledWords(a) + DoubledWords(b)
  {
    if a == [] {
      assert a + b == b;
    } else {
      hide DoubledWords;
      DoubledWordsConcat(a[1..], b);
      assert a == [a[0]] + a[1..];
      OneMoreWord(a[0], a[1..], b);
    }
  }

  lemma OneMoreWord(w: Word, rest: seq<Word>, b: seq<Word>)
    requires DoubledWords(rest + b) == DoubledWords(rest) + DoubledWords(b)
    ensures DoubledWords([w] + rest + b) == DoubledWords([w] + rest) + DoubledWords(b)
  {
    hide DoubledWords, DoubledWord;
    Regroup([w], rest, b);
    DoubledWordsCons(w, rest + b);
    DoubledWordsCons(w, rest);
    Regroup(DoubledWord(w), DoubledWords(rest), DoubledWords(b));
  }

  lemma DoubledWordsCons(w: Word, rest: seq<Word>)
    ensures DoubledWords([w] + rest) == DoubledWord(w) + DoubledWords(rest)
  {
    assert ([w] + rest)[1..] == rest;
  }

  lemma {:induction false} DoubledWordsLength(a: seq<Word>)
    ensures |DoubledWords(a)| == 64 * |a|
  {
    if a == [] {
    } else {
      DoubledWordsLength(a[1..]);
    }
  }

  /** The state machine turns one fetched word into its two pixels, each sent twice. */
  lemma DoubledWordIsTwoPixels(low: U16, high: U16)
    ensures DoubledWord(Bits(low + 65536 * high, 32)) == PixelBits(Twice([low, high]))
  {
    BitsOfPair(low, high);
    assert Twice([low, high]) == [low, low, high, high];
    var a, b := Bits(low, 16), Bits(high, 16);
    assert PixelBits([high]) == b + [];
    assert PixelBits([high, high]) == b + PixelBits([high]);
    assert PixelBits([low, high, high]) == a + PixelBits([high, high]);
    assert PixelBits([low, low, high, high]) == a + PixelBits([low, high, high]);
  }

  lemma {:induction false} FetchedPixelsAreDoubled(mem: seq<U16>, offset: nat, n: nat)
    requires offset + 2 * n <= |mem|
    ensures DoubledWords(WordsFrom(mem, offset, n)) == PixelBits(Twice(mem[offset..offset + 2 * n]))
    decreases n
  {
    if n == 0 {
    } else {
      var low, high := mem[offset], mem[offset + 1];
      var rest := mem[offset + 2..offset + 2 * n];
      assert mem[offset..offset + 2 * n] == [low, high] + rest;
      FetchedPixelsAreDoubled(mem, offset + 2, n - 1);
      assert WordsFrom(mem, offset, n) == [WordAt(mem, offset)] + WordsFrom(mem, offset + 2, n - 1);
      WordIsTwoPixels(mem, offset);
      hide DoubledWords, DoubledWord, PixelBits, Twice, Bits, WordAt, WordsFrom;
      OneWord(WordAt(mem, offset));
      JoinDoubled([WordAt(mem, offset)], [low, high], WordsFrom(mem, offset + 2, n - 1), rest);
    }
  }

  lemma WordIsTwoPixels(mem: seq<U16>, offset: nat)
    requires offset + 2 <= |mem|
    ensures DoubledWord(WordAt(mem, offset)) == PixelBits(Twice([mem[offset], mem[offset + 1]]))
  {
    hide DoubledWord, PixelBits, Twice, Bits;
    DoubledWordIsTwoPixels(mem[offset], mem[offset + 1]);
  }

  lemma OneWord(w: Word)
    ensures DoubledWords([w]) == DoubledWord(w)
  {
    hide DoubledWord;
    assert DoubledWord(w) + [] == DoubledWord(w);
  }

  function Row(mem: seq<U16>, width: nat, height: nat, r: nat): (ps: seq<U16>)
    requires width * height <= |mem| && r < height
    ensures |ps| == width
  {
    RowBounds(width, height, r);
    mem[r * width..(r + 1) * width]
  }

  lemma RowBounds(width: nat, height: nat, r: nat)
    requires r < height
    ensures 0 <= r * width && r * width + width == (r + 1) * width <= width * height
  {
    MulMono(r + 1, height, width);
  }

  /** Rows r, r, r + 1, r + 1, ... */
  function RowsTwice(mem: seq<U16>, width: nat, height: nat, r: nat): (ps: seq<U16>)
    requires width * height <= |mem| && r <= height
    decreases height - r
  {
    if r == height then []
    else Row(mem, width, height, r) + Row(mem, width, height, r) + RowsTwice(mem, width, height, r + 1)
  }

  function DoubledLines(mem: seq<U16>, width: nat, height: nat): (lines: seq<seq<U16>>)
    requires width * height <= |mem|
  {
    seq(2 * height, l requires 0 <= l < 2 * height => Twice(Row(mem, width, height, l / 2)))
  }

  lemma DoubledLinesAt(mem: seq<U16>, width: nat, height: nat, l: nat)
    requires width * height <= |mem| && l < 2 * height
    ensures |DoubledLines(mem, width, height)| == 2 * height
    ensures DoubledLines(mem, width, height)[l] == Twice(Row(mem, width, height, l / 2))
  {
  }

  /** Each pixel twice in each line and each line twice: the picture at twice the size. */
  lemma DoubledLinesAreDoubled(mem: seq<U16>, width: nat, height: nat)
    requires width * height <= |mem|
    ensures IsDoubled(DoubledLines(mem, width, height), mem, width, height)
  {
    var lines := DoubledLines(mem, width, height);
    forall l, c | 0 <= l < 2 * height && 0 <= c < 2 * width
      ensures 0 <= l / 2 * width + c / 2 < |mem| && lines[l][c] == mem[l / 2 * width + c / 2]
    {
      RowBounds(width, height, l / 2);
      TwiceAt(Row(mem, width, height, l / 2), c);
    }
  }

  lemma {:induction false} RowsTwiceIsLines(mem: seq<U16>, width: nat, height: nat, r: nat)
    requires width * height <= |mem| && r <= height
    ensures Twice(RowsTwice(mem, width, height, r)) == Concat(DoubledLines(mem, width, height)[2 * r..])
    decreases height - r
  {
    if r == height {
      assert DoubledLines(mem, width, height)[2 * r..] == [];
    } else {
      RowsTwiceIsLines(mem, width, height, r + 1);
      RowsTwiceUnfolds(mem, width, height, r);
      TwoLines(mem, width, height, r);
      var row, rest := Row(mem, width, height, r), RowsTwice(mem, width, height, r + 1);
      var below := DoubledLines(mem, width, height)[2 * (r + 1)..];
      hide DoubledLines, RowsTwice, Concat, Row, Twice;
      TwiceRows(row, rest);
      ConcatTwo(Twice(row), Twice(row), below);
    }
  }

  /** One row of the picture is two lines of the doubled one. */
  lemma TwoLines(mem: seq<U16>, width: nat, height: nat, r: nat)
    requires width * height <= |mem| && r < height
    ensures |DoubledLines(mem, width, height)| == 2 * height
    ensures var lines, line := DoubledLines(mem, width, height), Twice(Row(mem, width, height, r));
            lines[2 * r..] == [line, line] + lines[2 * (r + 1)..]
  {
    hide DoubledLines, Row, Twice;
    DoubledLinesAt(mem, width, height, 2 * r);
    DoubledLinesAt(mem, width, height, 2 * r + 1);
    TwoThenRest(DoubledLines(mem, width, height), 2 * r);
  }

  lemma TwoThenRest(lines: seq<seq<U16>>, i: nat)
    requires i + 2 <= |lines|
    ensures lines[i..] == [lines[i], lines[i + 1]] + lines[i + 2..]
  {
  }

  lemma TwiceRows(row: seq<U16>, rest: seq<U16>)
    ensures Twice(row + row + rest) == Twice(row) + Twice(row) + Twice(rest)
  {
    hide Twice;
    TwiceConcat(row + row, rest);
    TwiceConcat(row, row);
  }

  lemma ConcatTwo(a: seq<U16>, b: seq<U16>, rest: seq<seq<U16>>)
    ensures Concat([a, b] + rest) == a + b + Concat(rest)
  {
    assert ([a, b] + rest)[1..] == [b] + rest;
    assert ([b] + rest)[1..] == rest;
  }

  lemma {:induction false} ConcatLength(lines: seq<seq<U16>>, n: nat)
    requires forall l :: 0 <= l < |lines| ==> |lines[l]| == n
    ensures |Concat(lines)| == |lines| * n
  {
    if lines == [] {
    } else {
      ConcatLength(lines[1..], n);
      assert |lines| * n == (|lines| - 1) * n + n;
    }
  }

  lemma {:induction false} LaterIsRows(mem: seq<U16>, width: U16, height: U16, line: nat)
    requires width * height <= |mem| && width % 2 == 0 && width < 32768 && 1 <= line <= height < 32768
    ensures DoubledWords(Later(mem, width, height, line))
         == PixelBits(Twice(Row(mem, width, height, line - 1) + RowsTwice(mem, width, height, line)))
    decreases height - line
  {
    hide ToU16, Twice, PixelBits, DoubledWords, WordsFrom, RowsTwice;
    HalfOfDoubled(width);
    HalfOfDoubled(height);
    if line == height {
      LastLineIsRow(mem, width, height);
    } else {
      LaterIsRows(mem, width, height, line + 1);
      MiddleLineIsTwoRows(mem, width, height, line);
      var row, next := Row(mem, width, height, line - 1), Row(mem, width, height, line);
      var rest := RowsTwice(mem, width, height, line + 1);
      hide Row;
      JoinDoubled(WordsFrom(mem, RowOffset(line, ToU16(width * 2)), width), row + next,
                  Later(mem, width, height, line + 1), next + rest);
      assert RowsTwice(mem, width, height, line) == next + next + rest by {
        RowsTwiceUnfolds(mem, width, height, line);
      }
      assert (row + next) + (next + rest) == row + (next + next + rest);
    }
  }

  lemma RowsTwiceUnfolds(mem: seq<U16>, width: nat, height: nat, r: nat)
    requires width * height <= |mem| && r <= height
    ensures RowsTwice(mem, width, height, r) ==
            if r == height then []
            else Row(mem, width, height, r) + Row(mem, width, height, r) + RowsTwice(mem, width, height, r + 1)
  {
  }

  /** The transfer for a middle scanline carries the row above and the row itself ... */
  lemma MiddleLineIsTwoRows(mem: seq<U16>, width: U16, height: U16, line: nat)
    requires width * height <= |mem| && width < 32768 && 1 <= line < height
    ensures DoubledWords(WordsFrom(mem, RowOffset(line, ToU16(width * 2)), width))
         == PixelBits(Twice(Row(mem, width, height, line - 1) + Row(mem, width, height, line)))
  {
    hide PixelBits, Twice, DoubledWords, WordsFrom, ToU16, RowOffset;
    HalfOfDoubled(width);
    RowOffsetIs(line, ToU16(width * 2));
    var row, next := Row(mem, width, height, line - 1), Row(mem, width, height, line);
    RowBounds(width, height, line - 1);
    RowBounds(width, height, line);
    var o: nat := (line - 1) * width;
    assert row == mem[o..o + width] && next == mem[o + width..o + 2 * width];
    hide Row;
    assert mem[o..o + 2 * width] == row + next;
    FetchedPixelsAreDoubled(mem, o, width);
  }

  lemma RowOffsetIs(line: int, fbWidth: int)
    ensures RowOffset(line, fbWidth) == (line - 1) * (fbWidth / 2)
  {
  }

  /** ... and the transfer for the last one carries the last row alone. */
  lemma LastLineIsRow(mem: seq<U16>, width: U16, height: U16)
    requires width * height <= |mem| && width % 2 == 0 && width < 32768 && 1 <= height < 32768
    ensures DoubledWords(Later(mem, width, height, height))
         == PixelBits(Twice(Row(mem, width, height, height - 1) + RowsTwice(mem, width, height, height)))
  {
    RowBounds(width, height, height - 1);
    RowOffsetIs(height, ToU16(width * 2));
    HalfOfDoubled(width);
    var offset: nat := (height - 1) * width;
    LastTransfer(mem, width, height);
    assert RowsTwice(mem, width, height, height) == [];
    assert mem[offset..offset + 2 * (width / 2)] == Row(mem, width, height, height - 1) + [];
    hide RowOffset, PixelBits, Twice, DoubledWords, WordsFrom, ToU16, Later;
    FetchedPixelsAreDoubled(mem, offset, width / 2);
  }

  lemma LastTransfer(mem: seq<U16>, width: U16, height: U16)
    requires width < 32768 && 1 <= height < 32768
    ensures Later(mem, width, height, height) ==
            WordsFrom(mem, RowOffset(height, ToU16(width * 2)), width / 2)
  {
    HalfOfDoubled(width);
    HalfOfDoubled(height);
    hide RowOffset, WordsFrom, ToU16;
    assert Later(mem, width, height, height + 1) == [];
  }

  lemma JoinDoubled(ws: seq<Word>, ps: seq<U16>, ws': seq<Word>, ps': seq<U16>)
    requires DoubledWords(ws) == PixelBits(Twice(ps)) && DoubledWords(ws') == PixelBits(Twice(ps'))
    ensures DoubledWords(ws + ws') == PixelBits(Twice(ps + ps'))
  {
    DoubledWordsConcat(ws, ws');
    TwiceConcat(ps, ps');
    PixelBitsConcat(Twice(ps), Twice(ps'));
  }

  lemma FrameIsRows(mem: seq<U16>, width: U16, height: U16)
    requires width * height <= |mem| && width % 2 == 0 && width < 32768 && 0 < height < 32768
    ensures DoubledWords(FrameWords(mem, width, height)) == PixelBits(Twice(RowsTwice(mem, width, height, 0)))
  {
    hide ToU16, Twice, PixelBits, DoubledWords, WordsFrom, Later, RowsTwice;
    FirstRow(mem, width, height);
    FetchedPixelsAreDoubled(mem, 0, width / 2);
    LaterIsRows(mem, width, height, 1);
    RowsTwiceUnfolds(mem, width, height, 0);
    var row, rest := Row(mem, width, height, 0), RowsTwice(mem, width, height, 1);
    hide Row;
    JoinDoubled(WordsFrom(mem, 0, width / 2), row, Later(mem, width, height, 1), row + rest);
    Regroup(row, row, rest);
  }

  lemma FirstRow(mem: seq<U16>, width: nat, height: nat)
    requires width * height <= |mem| && 0 < height && width % 2 == 0
    ensures width <= |mem| && mem[0..2 * (width / 2)] == Row(mem, width, height, 0)
  {
    RowBounds(width, height, 0);
  }

  // ---- Exactly when that is right ----

  lemma {:induction false} LaterLength(mem: seq<U16>, width: U16, height: U16, line: nat)
    ensures var stride, last := ToU16(width * 2) / 2, ToU16(height * 2) / 2;
            |Later(mem, width, height, line)| ==
            if line > last then 0 else (last - line) * stride + stride / 2
    decreases ToU16(height * 2) - line
  {
    var stride, last := ToU16(width * 2) / 2, ToU16(height * 2) / 2;
    if line > last {
    } else {
      LaterLength(mem, width, height, line + 1);
      LaterLengthStep(mem, width, height, line);
      hide Later, ToU16;
      OneMore(last - line, stride);
    }
  }

  lemma LaterLengthStep(mem: seq<U16>, width: U16, height: U16, line: nat)
    requires line <= ToU16(height * 2) / 2
    ensures var stride := ToU16(width * 2) / 2;
            |Later(mem, width, height, line)| ==
            (if line == ToU16(height * 2) / 2 then stride / 2 else stride) + |Later(mem, width, height, line + 1)|
  {
    HalfOfDoubled(width);
    HalfOfDoubled(height);
    hide ToU16, RowOffset, WordsFrom;
    var stride := ToU16(width * 2) / 2;
    WordsFromLength(mem, RowOffset(line, ToU16(width * 2)), stride);
    WordsFromLength(mem, RowOffset(line, ToU16(width * 2)), stride / 2);
  }

  lemma OneMore(n: nat, stride: nat)
    ensures 0 < n ==> n * stride == (n - 1) * stride + stride
    ensures n == 0 ==> n * stride == 0
  {
  }

  lemma {:induction false} WordsFromLength(mem: seq<U16>, offset: int, n: nat)
    ensures |WordsFrom(mem, offset, n)| == n
    decreases n
  {
    if n == 0 {
    } else {
      WordsFromLength(mem, offset + 2, n - 1);
    }
  }

  /** The first transfer, which does not look at the height, is of a row that exists. */
  predicate RowsExist(width: int, height: int) {
    0 < height || width < 2
  }

  predicate Doublable(width: int, height: int) {
    width % 2 == 0 && width < 32768 && height < 32768
  }

  /** The sizes for which the words fetched are the doubled picture: those that can be doubled,
      and of those without pixels the ones for which no word is fetched. */
  predicate ShownExactly(width: int, height: int) {
    if 0 < width && 0 < height then Doublable(width, height) else width < 2
  }

  /** Outside these sizes, too few words are fetched: an odd width loses a word of rounding,
      and larger sizes wrap in the handler's 16-bit arithmetic. */
  lemma FrameIsShort(mem: seq<U16>, width: U16, height: U16)
    requires RowsExist(width, height)
    ensures |FrameWords(mem, width, height)| < width * height || ShownExactly(width, height)
  {
    hide Later, WordsFrom, ToU16;
    HalfOfDoubled(width);
    HalfOfDoubled(height);
    LaterLength(mem, width, height, 1);
    WordsFromLength(mem, 0, width * 2 / 4);
    var stride, last := ToU16(width * 2) / 2, ToU16(height * 2) / 2;
    if !ShownExactly(width, height) {
      TooFewWords(width, height, stride, last);
    }
  }

  /** A framebuffer without rows is scanned out as if it had one. */
  lemma EmptyFrame(mem: seq<U16>, width: U16)
    ensures |FrameWords(mem, width, 0)| == width / 2
  {
    hide WordsFrom;
    WordsFromLength(mem, 0, width * 2 / 4);
  }

  lemma TooFewWords(width: nat, height: nat, stride: nat, last: nat)
    requires 0 < width && 0 < height && stride <= width && last <= height
    requires width % 2 == 1 || stride < width - 1 || last < height
    ensures width / 2 + (if last < 1 then 0 else (last - 1) * stride + stride / 2) < width * height
  {
    MulMono(1, height, width);
    if last >= 1 {
      RowsBelow(width, stride, last);
      RowsAbove(width, last, height);
      ShortSum(width, stride, (last - 1) * stride, last * width, width * height, last < height);
    }
  }

  lemma RowsBelow(width: nat, stride: nat, last: nat)
    requires stride <= width && 1 <= last
    ensures (last - 1) * stride + width <= last * width
  {
    MulMono(stride, width, last - 1);
    OneMore(last, width);
  }

  lemma RowsAbove(width: nat, last: nat, height: nat)
    requires last <= height
    ensures last * width + (if last < height then width else 0) <= width * height
  {
    MulMono(last, height, width);
    MulMono(last + 1, height, width);
    OneMore(last + 1, width);
  }

  lemma ShortSum(width: nat, stride: nat, below: nat, rows: nat, all: nat, rowsMissing: bool)
    requires 0 < width && stride <= width && (width % 2 == 1 || stride < width - 1 || rowsMissing)
    requires below + width <= rows && rows + (if rowsMissing then width else 0) <= all
    ensures width / 2 + (below + stride / 2) < all
  {
  }

  /** The doubled picture as one list of pixels. */
  function DoubledPicture(mem: seq<U16>, width: nat, height: nat): seq<U16>
    requires width * height <= |mem|
  {
    Concat(DoubledLines(mem, width, height))
  }

  lemma DoubledPictureLength(mem: seq<U16>, width: nat, height: nat)
    requires width * height <= |mem|
    ensures |DoubledPicture(mem, width, height)| == 4 * (width * height)
  {
    DoubledLinesAreDoubled(mem, width, height);
    hide DoubledLines, Concat;
    DoubledSize(DoubledLines(mem, width, height), mem, width, height);
  }

  lemma DoubledSize(lines: seq<seq<U16>>, mem: seq<U16>, width: nat, height: nat)
    requires width * height <= |mem| && IsDoubled(lines, mem, width, height)
    ensures |Concat(lines)| == 4 * (width * height)
  {
    hide Concat;
    ConcatLength(lines, 2 * width);
    assert 2 * height * (2 * width) == 4 * (width * height);
  }

  /** Doubling invents no colours. */
  lemma DoubledPictureColors(mem: seq<U16>, width: nat, height: nat)
    requires width * height <= |mem|
    ensures forall p :: p in DoubledPicture(mem, width, height) ==> p in mem
  {
    var lines := DoubledLines(mem, width, height);
    DoubledLinesAreDoubled(mem, width, height);
    forall l, c | 0 <= l < |lines| && 0 <= c < |lines[l]|
      ensures lines[l][c] in mem
    {
      IndexInRange(c / 2, l / 2, width, height);
    }
    hide DoubledLines;
    ConcatColors(lines, mem);
  }

  lemma {:induction false} ConcatColors(lines: seq<seq<U16>>, mem: seq<U16>)
    requires forall l, c :: 0 <= l < |lines| && 0 <= c < |lines[l]| ==> lines[l][c] in mem
    ensures forall p :: p in Concat(lines) ==> p in mem
  {
    if lines == [] {
    } else {
      assert forall l, c :: 0 <= l < |lines[1..]| && 0 <= c < |lines[1..][l]| ==> lines[1..][l][c] == lines[l + 1][c];
      ConcatColors(lines[1..], mem);
      assert forall p :: p in lines[0] ==> p in mem;
    }
  }

  /** A zero pixel read where there is no row sends zero bits. */
  lemma ZeroRow(mem: seq<U16>, width: U16)
    requires 2 <= width && |mem| == width && forall i :: 0 <= i < |mem| ==> mem[i] == 0
    ensures false in DoubledWords(FrameWords(mem, width, 0))
  {
    var words, w := FrameWords(mem, width, 0), WordAt(mem, 0);
    EmptyFrame(mem, width);
    assert words == WordsFrom(mem, 0, width * 2 / 4) + [];
    assert words[0] == w;
    assert w == Bits(0, 32) && !w[31];
    hide WordAt, Bits, FrameWords, WordsFrom;
    assert !DoubledWord(w)[15];
    hide DoubledWord;
    assert DoubledWord(w)[15] in DoubledWord(w);
    assert words == [w] + words[1..];
    DoubledWordsCons(w, words[1..]);
  }

  lemma FrameIsDoubledPicture(mem: seq<U16>, width: U16, height: U16)
    requires width * height <= |mem| && ShownExactly(width, height)
    ensures DoubledWords(FrameWords(mem, width, height)) == PixelBits(DoubledPicture(mem, width, height))
  {
    if 0 < width && 0 < height {
      hide FrameWords, Concat, PixelBits, DoubledWords, RowsTwice, Twice, DoubledLines;
      FrameIsRows(mem, width, height);
      RowsTwiceIsLines(mem, width, height, 0);
      assert DoubledLines(mem, width, height)[0..] == DoubledLines(mem, width, height);
    } else {
      NoWords(mem, width, height);
      DoubledPictureLength(mem, width, height);
      assert width * height == 0;
    }
  }

  lemma NoWords(mem: seq<U16>, width: U16, height: U16)
    requires width < 2 && (width == 0 || height == 0)
    ensures FrameWords(mem, width, height) == []
  {
    if height == 0 {
      EmptyFrame(mem, width);
    } else {
      hide Later;
      LaterLength(mem, width, height, 1);
      OneMore(ToU16(height * 2) / 2, 0);
    }
  }

  /** The stream of a frame is the doubled picture exactly for even widths below 2^15 and
      heights below 2^15, if there are pixels at all. */
  lemma FrameIsDoubledExactly(mem: seq<U16>, width: U16, height: U16)
    requires width * height <= |mem|
    ensures (exists lines :: IsDoubled(lines, mem, width, height)
                             && DoubledWords(FrameWords(mem, width, height)) == PixelBits(Concat(lines)))
            <==> ShownExactly(width, height)
  {
    hide FrameWords, Concat, PixelBits, DoubledWords, DoubledLines, IsDoubled, ShownExactly;
    if ShownExactly(width, height) {
      FrameIsDoubledPicture(mem, width, height);
      DoubledLinesAreDoubled(mem, width, height);
    } else {
      forall lines | IsDoubled(lines, mem, width, height)
        ensures DoubledWords(FrameWords(mem, width, height)) != PixelBits(Concat(lines))
      {
        NotDoubled(mem, width, height, lines);
      }
    }
  }

  lemma NotDoubled(mem: seq<U16>, width: U16, height: U16, lines: seq<seq<U16>>)
    requires width * height <= |mem| && IsDoubled(lines, mem, width, height) && !ShownExactly(width, height)
    ensures DoubledWords(FrameWords(mem, width, height)) != PixelBits(Concat(lines))
  {
    hide FrameWords, Concat, PixelBits, DoubledWords, IsDoubled, ShownExactly;
    WrongLength(mem, width, height);
    DoubledWordsLength(FrameWords(mem, width, height));
    PixelBitsLength(Concat(lines));
    DoubledSize(lines, mem, width, height);
  }

  lemma WrongLength(mem: seq<U16>, width: U16, height: U16)
    requires !ShownExactly(width, height)
    ensures |FrameWords(mem, width, height)| != width * height
  {
    hide FrameWords;
    if height == 0 {
      EmptyFrame(mem, width);
      assert width * height == 0;
    } else {
      FrameIsShort(mem, width, height);
    }
  }
}
