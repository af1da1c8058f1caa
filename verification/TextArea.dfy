/** pw_draw's TextArea: a wrapping, scrolling terminal that exists only as pixels and a cursor. */
module TextDrawing {
  import opened Framebuffers
  import opened BitStrings

  /** A bitmap font: one byte per glyph row, the leftmost pixel in the highest used bit. */
  datatype FontSet = FontSet(data: seq<nat>, width: nat, height: nat, startingCharacter: int, endingCharacter: int) {
    predicate Valid() {
      && width < 256 && height < 256
      && (startingCharacter <= endingCharacter ==>
            height * (endingCharacter - startingCharacter) + height <= |data|)
    }

    predicate Has(ch: int) {
      startingCharacter <= ch <= endingCharacter
    }

    predicate FontBit(ch: int, column: int, row: int)
      requires Valid() && Has(ch) && 0 <= column < width && 0 <= row < height
    {
      MulMono(0, ch - startingCharacter, height);
      MulMono(ch - startingCharacter, endingCharacter - startingCharacter, height);
      data[height * (ch - startingCharacter) + row] / Pow2(width - column - 1) % 2 == 1
    }
  }

  /** A glyph row is its byte in binary, read from left to right. */
  lemma GlyphRowIsBinary(font: FontSet, ch: int, column: int, row: int)
    requires font.Valid() && font.Has(ch) && 0 <= column < font.width && 0 <= row < font.height
    ensures 0 <= font.height * (ch - font.startingCharacter) + row < |font.data|
    ensures font.FontBit(ch, column, row)
       <==> Bits(font.data[font.height * (ch - font.startingCharacter) + row], font.width)[column]
  {
    hide Bits, Pow2;
    MulMono(0, ch - font.startingCharacter, font.height);
    MulMono(ch - font.startingCharacter, font.endingCharacter - font.startingCharacter, font.height);
    BitAt(font.data[font.height * (ch - font.startingCharacter) + row], font.width, column);
  }

  /** The colours in use. */
  datatype Style = Style(font: FontSet, foreground: Color, background: Color)

  /** Whether draw's DrawCharacter sets any pixels for a character. */
  predicate Drawable(font: FontSet, ch: int) {
    ch == 0x20 || ch == 0 || font.Has(ch)
  }

  /** The glyph's pixel, read from the font's bytes. */
  predicate GlyphBit(font: FontSet, ch: int, column: int, row: int)
    requires font.Valid() && font.Has(ch) && 0 <= column < font.width && 0 <= row < font.height
  {
    MulMono(0, ch - font.startingCharacter, font.height);
    MulMono(ch - font.startingCharacter, font.endingCharacter - font.startingCharacter, font.height);
    Bits(font.data[font.height * (ch - font.startingCharacter) + row], font.width)[column]
  }

  /** The colour of one pixel of a character's box. */
  function CellColor(style: Style, ch: int, column: int, row: int): Color
    requires style.font.Valid() && Drawable(style.font, ch)
    requires 0 <= column < style.font.width && 0 <= row < style.font.height
  {
    if ch != 0x20 && ch != 0 && style.font.FontBit(ch, column, row) then style.foreground else style.background
  }

  /** The character's box at (x, y), on top of a picture. */
  ghost function Inked(pic: Picture, style: Style, ch: int, x: int, y: int): Picture
    requires style.font.Valid() && Drawable(style.font, ch)
  {
    map p | p in pic ::
      var dx, dy := ToU16(p.x - x), ToU16(p.y - y);
      if dx < style.font.width && dy < style.font.height then CellColor(style, ch, dx, dy) else pic[p]
  }

  /** The colour at `p` part-way through a row-by-row walk over the box. */
  ghost function InkAt(pic: Picture, style: Style, ch: int, x: int, y: int, row: int, column: int, p: Point): Color
    requires style.font.Valid() && Drawable(style.font, ch) && p in pic
  {
    var dx, dy := ToU16(p.x - x), ToU16(p.y - y);
    if dx < style.font.width && dy < style.font.height && Passed(Point(dy, dx), row, column)
    then CellColor(style, ch, dx, dy) else pic[p]
  }

  ghost function InkedTo(pic: Picture, style: Style, ch: int, x: int, y: int, row: int, column: int): Picture
    requires style.font.Valid() && Drawable(style.font, ch)
  {
    map p | p in pic :: InkAt(pic, style, ch, x, y, row, column, p)
  }

  lemma InkStart(pic: Picture, style: Style, ch: int, x: int, y: int)
    requires style.font.Valid() && Drawable(style.font, ch)
    ensures InkedTo(pic, style, ch, x, y, 0, 0) == pic
  {
    hide CellColor;
  }

  lemma InkNextRow(pic: Picture, style: Style, ch: int, x: int, y: int, row: int)
    requires style.font.Valid() && Drawable(style.font, ch)
    ensures InkedTo(pic, style, ch, x, y, row, style.font.width) == InkedTo(pic, style, ch, x, y, row + 1, 0)
  {
    hide CellColor, ToU16;
  }

  lemma InkEnd(pic: Picture, style: Style, ch: int, x: int, y: int)
    requires style.font.Valid() && Drawable(style.font, ch)
    ensures InkedTo(pic, style, ch, x, y, style.font.height, 0) == Inked(pic, style, ch, x, y)
  {
    hide CellColor, ToU16;
  }

  lemma BoxPixel(p: Point, x: int, y: int, column: int, row: int)
    requires 0 <= p.x < 65536 && 0 <= p.y < 65536 && 0 <= column < 65536 && 0 <= row < 65536
    ensures p == WrapPoint(Point(x + column, y + row)) <==> ToU16(p.x - x) == column && ToU16(p.y - y) == row
  {
    Alias(p.x, x, column);
    Alias(p.y, y, row);
  }

  lemma InkAtOneMore(pic: Picture, style: Style, ch: int, x: int, y: int, row: int, column: int, p: Point)
    requires style.font.Valid() && Drawable(style.font, ch) && Addressable(pic) && p in pic
    requires 0 <= row < style.font.height && 0 <= column < style.font.width
    ensures InkAt(pic, style, ch, x, y, row, column + 1, p) ==
            if p == WrapPoint(Point(x + column, y + row)) then CellColor(style, ch, column, row)
            else InkAt(pic, style, ch, x, y, row, column, p)
  {
    BoxPixel(p, x, y, column, row);
    hide CellColor, ToU16, WrapPoint;
  }

  lemma InkOnePixel(pic: Picture, style: Style, ch: int, x: int, y: int, row: int, column: int)
    requires style.font.Valid() && Drawable(style.font, ch) && Addressable(pic)
    requires 0 <= row < style.font.height && 0 <= column < style.font.width
    ensures PlotPoint(InkedTo(pic, style, ch, x, y, row, column), Point(x + column, y + row),
                      CellColor(style, ch, column, row))
         == InkedTo(pic, style, ch, x, y, row, column + 1)
  {
    var was, goal := InkedTo(pic, style, ch, x, y, row, column), InkedTo(pic, style, ch, x, y, row, column + 1);
    var now := PlotPoint(was, Point(x + column, y + row), CellColor(style, ch, column, row));
    hide CellColor, InkAt, WrapPoint;
    forall p | p in pic
      ensures now[p] == goal[p]
    {
      InkAtOneMore(pic, style, ch, x, y, row, column, p);
    }
  }

  ghost function CharacterDrawn(pic: Picture, style: Style, ch: int, x: int, y: int): Picture
    requires style.font.Valid()
  {
    if Drawable(style.font, ch) then Inked(pic, style, ch, x, y) else pic
  }

  /** What drawing a character does to each pixel: inside its box, modulo 2^16, the foreground
      where the glyph has a bit and the background elsewhere; all background for a space or null;
      and nothing for any other character that the font does not have. */
  lemma CharacterPixels(pic: Picture, style: Style, ch: int, x: int, y: int, p: Point)
    requires style.font.Valid() && p in pic
    ensures var font, dx, dy := style.font, ToU16(p.x - x), ToU16(p.y - y);
            CharacterDrawn(pic, style, ch, x, y)[p] ==
            if dx >= font.width || dy >= font.height then pic[p]
            else if ch == 0x20 || ch == 0 then style.background
            else if ch < font.startingCharacter || font.endingCharacter < ch then pic[p]
            else if GlyphBit(font, ch, dx, dy) then style.foreground
            else style.background
  {
    var font, dx, dy := style.font, ToU16(p.x - x), ToU16(p.y - y);
    hide ToU16;
    if dx < font.width && dy < font.height && ch != 0x20 && ch != 0 && font.Has(ch) {
      GlyphRowIsBinary(font, ch, dx, dy);
    }
  }

  /** The two nested loops that DrawSpace and DrawCharacter each have. */
  method DrawBox(fb: Framebuffer, style: Style, ch: int, x: int, y: int)
    requires fb.Valid() && style.font.Valid() && Drawable(style.font, ch)
    modifies fb.data
    ensures fb.Picture() == Inked(old(fb.Picture()), style, ch, x, y)
  {
    hide PlotPoint, InkedTo, Inked;
    ghost var pic := fb.Picture();
    InkStart(pic, style, ch, x, y);
    for row := 0 to style.font.height
      invariant fb.Picture() == InkedTo(pic, style, ch, x, y, row, 0)
    {
      for column := 0 to style.font.width
        invariant fb.Picture() == InkedTo(pic, style, ch, x, y, row, column)
      {
        InkOnePixel(pic, style, ch, x, y, row, column);
        fb.SetPixelAt(x + column, y + row, CellColor(style, ch, column, row));
      }
      InkNextRow(pic, style, ch, x, y, row);
    }
    InkEnd(pic, style, ch, x, y);
  }

  /** draw's DrawCharacter; the result is the width drawn. */
  method DrawCharacter(fb: Framebuffer, style: Style, ch: int, x: int, y: int) returns (width: int)
    requires fb.Valid() && style.font.Valid()
    modifies fb.data
    ensures fb.Picture() == CharacterDrawn(old(fb.Picture()), style, ch, x, y)
    ensures width == if Drawable(style.font, ch) then style.font.width else 0
  {
    if ch == 0x20 || ch == 0 {
      DrawBox(fb, style, ch, x, y);
      return style.font.width;
    }
    if ch < style.font.startingCharacter || ch > style.font.endingCharacter {
      return 0;
    }
    DrawBox(fb, style, ch, x, y);
    width := style.font.width;
  }
}

/** The text area itself, and what it is for: showing the last lines of a text. */
module TextAreas {
  import opened Framebuffers
  import opened TextDrawing

  const NEWLINE := 0x0a

  /** Everything a text area shows or remembers. */
  datatype Screen = Screen(pic: Picture, x: int, y: int, columns: int)

  /** The fixed surroundings: framebuffer size, font and colours, and the wrap setting. */
  datatype Setting = Setting(width: U16, height: U16, style: Style, wrap: bool) {
    predicate Valid() {
      style.font.Valid()
    }
  }

  /** The colour at `p` once the picture has moved up, with background below. */
  ghost function Raised(pic: Picture, p: Point, height: int, distance: int, background: Color): Color {
    var q := Point(p.x, p.y + distance);
    if q.y < height && q in pic then pic[q] else background
  }

  ghost function Scrolled(pic: Picture, height: int, distance: int, background: Color): Picture {
    map p | p in pic :: Raised(pic, p, height, distance, background)
  }

  ghost function LineBroken(g: Setting, s: Screen): Screen
  {
    var h := g.style.font.height;
    var s := s.(x := s.x - s.columns * g.style.font.width, y := s.y + h, columns := 0);
    if s.y >= g.height then s.(pic := Scrolled(s.pic, g.height, h, g.style.background), y := s.y - h) else s
  }

  ghost function MovedRight(g: Setting, s: Screen): Screen {
    s.(x := s.x + g.style.font.width, columns := s.columns + 1)
  }

  /** TextArea::DrawCharacter. */
  ghost function Typed(g: Setting, s: Screen, ch: int): Screen
    requires g.Valid()
  {
    if ch == NEWLINE then LineBroken(g, s)
    else if !g.style.font.Has(ch) then MovedRight(g, s)
    else
      var s := if g.wrap && g.style.font.width + s.x > g.width then LineBroken(g, s) else s;
      MovedRight(g, s.(pic := Inked(s.pic, g.style, ch, s.x, s.y)))
  }

  ghost function TypedAll(g: Setting, s: Screen, text: seq<int>): Screen
    requires g.Valid()
    decreases |text|
  {
    if text == [] then s else TypedAll(g, Typed(g, s, text[0]), text[1..])
  }

  // ---- Scrolling in place ----

  /** The row of the old picture that row `r` shows when the walk down its column has reached
      row `y`: each row is read and written `distance` higher, both modulo 2^16. */
  function RowShown(height: U16, distance: int, y: int, r: int): (from: int)
    ensures 0 <= r < height ==> 0 <= from < height
    decreases y - distance
  {
    if y <= distance then r
    else if ToU16(y - 1) < height && r == ToU16(y - 1 - distance) then RowShown(height, distance, y - 1, ToU16(y - 1))
    else RowShown(height, distance, y - 1, r)
  }

  /** The colour of another point, if the picture has it. */
  ghost function ColorOf(pic: Picture, p: Point, q: Point): Color
    requires p in pic
  {
    if q in pic then pic[q] else pic[p]
  }

  /** The colour at `p` part-way through the column-by-column walk. */
  ghost function Copied(pic: Picture, p: Point, height: U16, distance: int, currentX: int, currentY: int): Color
    requires p in pic
  {
    if p.x < currentX then ColorOf(pic, p, Point(p.x, RowShown(height, distance, height, p.y)))
    else if p.x == currentX then ColorOf(pic, p, Point(p.x, RowShown(height, distance, currentY, p.y)))
    else pic[p]
  }

  ghost function ScrolledTo(pic: Picture, height: U16, distance: int, currentX: int, currentY: int): Picture {
    map p | p in pic :: Copied(pic, p, height, distance, currentX, currentY)
  }

  /** The colour at `p` after every row has been copied `distance` higher, in place, and the
      rows below have been cleared. */
  ghost function Left(pic: Picture, p: Point, height: U16, distance: int, background: Color): Color
    requires p in pic
  {
    if p.y < height - distance then ColorOf(pic, p, Point(p.x, RowShown(height, distance, height, p.y)))
    else background
  }

  ghost function ScrolledBy(pic: Picture, height: U16, distance: int, background: Color): Picture {
    map p | p in pic :: Left(pic, p, height, distance, background)
  }

  /** Which points a picture has. */
  ghost predicate Sized(pic: Picture, width: int, height: int) {
    forall p :: p in pic <==> 0 <= p.x < width && 0 <= p.y < height
  }

  lemma PictureIsSized(pic: Picture, width: int, height: int)
    requires pic.Keys == Area(width, height)
    ensures Sized(pic, width, height)
  {
    forall p
      ensures p in Area(width, height) <==> 0 <= p.x < width && 0 <= p.y < height
    {
    }
  }

  /** One step of the walk: read at `currentY`, and write `distance` higher if that was inside. */
  ghost function RowCopied(was: Picture, distance: int, currentX: int, currentY: int): Picture {
    var source := Point(currentX, ToU16(currentY));
    if source in was then PlotPoint(was, Point(currentX, currentY - distance), was[source]) else was
  }

  lemma ScrollOnePixel(pic: Picture, width: U16, height: U16, distance: int, currentX: int, currentY: int)
    requires Sized(pic, width, height) && 0 <= currentX < width && distance <= currentY
    ensures RowCopied(ScrolledTo(pic, height, distance, currentX, currentY), distance, currentX, currentY)
         == ScrolledTo(pic, height, distance, currentX, currentY + 1)
  {
    hide ToU16, WrapPoint, Copied, Sized;
    var was := ScrolledTo(pic, height, distance, currentX, currentY);
    var now := RowCopied(was, distance, currentX, currentY);
    forall p | p in pic
      ensures now[p] == Copied(pic, p, height, distance, currentX, currentY + 1)
    {
      CopiedOneMore(pic, p, width, height, distance, currentX, currentY);
    }
  }

  lemma CopiedOneMore(pic: Picture, p: Point, width: U16, height: U16, distance: int, currentX: int, currentY: int)
    requires Sized(pic, width, height) && p in pic && 0 <= currentX < width && distance <= currentY
    ensures var source := Point(currentX, ToU16(currentY));
            Copied(pic, p, height, distance, currentX, currentY + 1) ==
            if source in pic && p == WrapPoint(Point(currentX, currentY - distance))
            then Copied(pic, source, height, distance, currentX, currentY)
            else Copied(pic, p, height, distance, currentX, currentY)
  {
    assert ToU16(currentX) == currentX;
    hide ToU16, RowShown;
    RowShownUnfolds(height, distance, currentY, p.y);
    RowShownIsInside(height, distance, currentY, ToU16(currentY));
  }

  lemma RowShownUnfolds(height: U16, distance: int, y: int, r: int)
    requires distance <= y
    ensures RowShown(height, distance, y + 1, r) ==
            if ToU16(y) < height && r == ToU16(y - distance) then RowShown(height, distance, y, ToU16(y))
            else RowShown(height, distance, y, r)
  {
    hide ToU16;
  }

  lemma RowShownIsInside(height: U16, distance: int, y: int, r: int)
    ensures 0 <= r < height ==> 0 <= RowShown(height, distance, y, r) < height
  {
    hide RowShown;
  }

  lemma ScrollStart(pic: Picture, width: U16, height: U16, distance: int)
    requires Sized(pic, width, height)
    ensures ScrolledTo(pic, height, distance, 0, distance) == pic
  {
    forall p | p in pic
      ensures Copied(pic, p, height, distance, 0, distance) == pic[p]
    {
    }
    hide Copied;
  }

  lemma ScrollNextColumn(pic: Picture, height: U16, distance: int, currentX: int, currentY: int)
    requires currentY == Max(height, distance)
    ensures ScrolledTo(pic, height, distance, currentX, currentY)
         == ScrolledTo(pic, height, distance, currentX + 1, distance)
  {
    forall p | p in pic
      ensures Copied(pic, p, height, distance, currentX, currentY)
           == Copied(pic, p, height, distance, currentX + 1, distance)
    {
    }
    hide Copied;
  }

  // What that means: moving up is moving up, and moving down repeats the top rows.

  lemma {:induction false} RowShownUp(height: U16, distance: nat, y: nat, r: nat)
    requires y <= height
    ensures RowShown(height, distance, y, r) == if r + distance < y then r + distance else r
    decreases y
  {
    if y <= distance {
    } else {
      UnwrappedRows(y - 1, y - 1 - distance);
      hide ToU16;
      RowShownUp(height, distance, y - 1, if r == y - 1 - distance then y - 1 else r);
    }
  }

  lemma UnwrappedRows(a: U16, b: U16)
    ensures ToU16(a) == a && ToU16(b) == b
  {
  }

  lemma {:induction false} RowShownDown(height: U16, distance: nat, y: int, r: nat)
    requires y <= height && 0 < distance <= 65536 - height
    ensures RowShown(height, 0 - distance, y, r) == if 0 < y && r < y + distance then r % distance else r
    decreases y + distance
  {
    SmallRemainder(r, distance);
    if y <= 0 - distance {
    } else if y <= 0 {
      assert ToU16(y - 1) >= height;
      RowShownDown(height, distance, y - 1, r);
    } else {
      UnwrappedRows(y - 1, y - 1 + distance);
      AddKeepsRemainder(y - 1, distance);
      SmallRemainder(y - 1, distance);
      hide ToU16;
      RowShownDown(height, distance, y - 1, if r == y - 1 + distance then y - 1 else r);
    }
  }

  lemma SmallRemainder(a: nat, n: nat)
    requires 0 < n
    ensures a < n ==> a % n == a
    ensures 0 <= a % n <= a
  {
  }

  lemma ScrollsUp(pic: Picture, width: U16, height: U16, distance: nat, background: Color)
    requires Sized(pic, width, height)
    ensures ScrolledBy(pic, height, distance, background) == Scrolled(pic, height, distance, background)
  {
    hide RowShown;
    forall p | p in pic
      ensures Left(pic, p, height, distance, background) == Raised(pic, p, height, distance, background)
    {
      RowShownUp(height, distance, height, p.y);
    }
    hide Left, Raised;
  }

  lemma ScrollsDown(pic: Picture, width: U16, height: U16, distance: nat, background: Color, p: Point)
    requires Sized(pic, width, height) && 0 < distance <= 65536 - height && p in pic
    ensures var q := Point(p.x, p.y % distance);
            q in pic && ScrolledBy(pic, height, 0 - distance, background)[p] == pic[q]
  {
    hide RowShown;
    RowShownDown(height, distance, height, p.y);
    SmallRemainder(p.y, distance);
  }

  /** The background rectangle, part-way: rows above it are untouched, and what the walk has
      passed is background. */
  ghost predicate ClearedTo(pic: Picture, now: Picture, top: int, background: Color, currentX: int, currentY: int) {
    && now.Keys == pic.Keys
    && forall p :: p in pic ==>
         && (p.y < top ==> now[p] == pic[p])
         && (p.y >= top && Passed(p, currentX, currentY) ==> now[p] == background)
  }

  lemma ClearOnePixel(pic: Picture, now: Picture, width: int, height: int, top: int, background: Color, x: int, y: int)
    requires Sized(pic, width, height)
    requires 0 <= width <= 65535 && 0 <= height <= 65535
    requires ClearedTo(pic, now, top, background, x, y)
    requires 0 <= x < width && top <= y < height
    ensures ClearedTo(pic, PlotPoint(now, Point(x, y), background), top, background, x, y + 1)
  {
    assert ToU16(x) == x;
    assert 0 <= y ==> ToU16(y) == y;
    hide ToU16;
  }

  lemma ClearedIsScrolled(pic: Picture, now: Picture, width: U16, height: U16, distance: int, background: Color)
    requires Sized(pic, width, height)
    requires ClearedTo(ScrolledTo(pic, height, distance, width, distance), now, height - distance,
                       background, width, height - distance)
    ensures now == ScrolledBy(pic, height, distance, background)
  {
    hide Copied, Left;
    forall p | p in pic
      ensures now[p] == Left(pic, p, height, distance, background)
    {
      CopiedIsLeft(pic, p, width, height, distance, background);
      assert Passed(p, width, height - distance);
    }
  }

  lemma CopiedIsLeft(pic: Picture, p: Point, width: U16, height: U16, distance: int, background: Color)
    requires Sized(pic, width, height) && p in pic
    ensures Left(pic, p, height, distance, background) ==
            if p.y < height - distance then Copied(pic, p, height, distance, width, distance) else background
  {
  }

  method CopyPixel(fb: Framebuffer, x: int, y: int, distance: int)
    requires fb.Valid() && 0 <= x < fb.width
    modifies fb.data
    ensures fb.Picture() == RowCopied(old(fb.Picture()), distance, x, y)
  {
    SamePoint(x, y);
    var pixelColor := fb.GetPixel(ToU16(x), ToU16(y));
    if pixelColor.Some? {
      fb.SetPixelAt(x, y - distance, pixelColor.value);
    }
    hide PlotPoint;
  }

  lemma SamePoint(x: U16, y: int)
    ensures Point(ToU16(x), ToU16(y)) == Point(x, ToU16(y))
  {
  }

  /** The inner copying loop. */
  method CopyColumn(fb: Framebuffer, pixelHeight: int, currentX: int, ghost pic: Picture)
    requires fb.Valid() && Sized(pic, fb.width, fb.height) && 0 <= currentX < fb.width
    requires fb.Picture() == ScrolledTo(pic, fb.height, pixelHeight, currentX, pixelHeight)
    modifies fb.data
    ensures fb.Picture() == ScrolledTo(pic, fb.height, pixelHeight, currentX + 1, pixelHeight)
  {
    hide ScrolledTo, RowCopied, Sized;
    var currentY := pixelHeight;
    while currentY < fb.height
      invariant pixelHeight <= currentY <= Max(fb.height, pixelHeight)
      invariant fb.Picture() == ScrolledTo(pic, fb.height, pixelHeight, currentX, currentY)
    {
      ScrollOnePixel(pic, fb.width, fb.height, pixelHeight, currentX, currentY);
      CopyPixel(fb, currentX, currentY, pixelHeight);
      currentY := currentY + 1;
    }
    ScrollNextColumn(pic, fb.height, pixelHeight, currentX, currentY);
  }

  method ScrollPixels(fb: Framebuffer, pixelHeight: int, background: Color)
    requires fb.Valid()
    modifies fb.data
    ensures fb.Picture() == ScrolledBy(old(fb.Picture()), fb.height, pixelHeight, background)
  {
    ghost var pic := fb.Picture();
    PictureIsSized(pic, fb.width, fb.height);
    ScrollStart(pic, fb.width, fb.height, pixelHeight);
    hide ScrolledTo, Sized, ClearedTo, ScrolledBy;
    var currentX := 0;
    while currentX < fb.width
      invariant 0 <= currentX <= fb.width
      invariant fb.Picture() == ScrolledTo(pic, fb.height, pixelHeight, currentX, pixelHeight)
    {
      CopyColumn(fb, pixelHeight, currentX, pic);
      currentX := currentX + 1;
    }
    ClearBottom(fb, fb.height - pixelHeight, background);
    ClearedIsScrolled(pic, fb.Picture(), fb.width, fb.height, pixelHeight, background);
  }

  /** The background rectangle below the text. */
  method ClearBottom(fb: Framebuffer, top: int, background: Color)
    requires fb.Valid()
    modifies fb.data
    ensures ClearedTo(old(fb.Picture()), fb.Picture(), top, background, fb.width, top)
  {
    ghost var pic := fb.Picture();
    PictureIsSized(pic, fb.width, fb.height);
    assert forall p :: p in pic ==> 0 <= p.x;
    hide ClearedTo, PlotPoint, Sized;
    ClearStart(pic, top, background);
    var x := 0;
    while x < fb.width
      invariant 0 <= x <= fb.width
      invariant ClearedTo(pic, fb.Picture(), top, background, x, top)
    {
      var y := top;
      while y < fb.height
        invariant top <= y
        invariant ClearedTo(pic, fb.Picture(), top, background, x, y)
      {
        ClearOnePixel(pic, fb.Picture(), fb.width, fb.height, top, background, x, y);
        fb.SetPixelAt(x, y, background);
        y := y + 1;
      }
      ClearNextColumn(pic, fb.Picture(), fb.width, fb.height, top, background, x, y);
      x := x + 1;
    }
  }

  lemma ClearStart(pic: Picture, top: int, background: Color)
    requires forall p :: p in pic ==> 0 <= p.x
    ensures ClearedTo(pic, pic, top, background, 0, top)
  {
  }

  lemma ClearNextColumn(pic: Picture, now: Picture, width: int, height: int, top: int, background: Color,
                        x: int, y: int)
    requires Sized(pic, width, height)
    requires height <= y && ClearedTo(pic, now, top, background, x, y)
    ensures ClearedTo(pic, now, top, background, x + 1, top)
  {
  }

  // ---- The object ----

  class TextArea {
    const framebuffer: Framebuffer
    var cursorX: int
    var cursorY: int
    var columnCount: int
    var characterWrapEnabled: bool
    var style: Style

    ghost predicate Valid()
      reads this
    {
      framebuffer.Valid() && style.font.Valid()
    }

    ghost function Current(): Screen
      requires framebuffer.Valid()
      reads this, framebuffer.data
    {
      Screen(framebuffer.Picture(), cursorX, cursorY, columnCount)
    }

    ghost function Settings(): Setting
      reads this
    {
      Setting(framebuffer.width, framebuffer.height, style, characterWrapEnabled)
    }

    constructor (fb: Framebuffer, font: FontSet)
      requires fb.Valid() && font.Valid()
      ensures Valid() && framebuffer == fb
      ensures Settings() == Setting(fb.width, fb.height, Style(font, 0xFFFF, 0), true)
      ensures Current() == Screen(fb.Picture(), 0, 0, 0)
    {
      framebuffer := fb;
      style := Style(font, 0xFFFF, 0);
      characterWrapEnabled := true;
      cursorX, cursorY, columnCount := 0, 0, 0;
    }

    method SetCursor(x: int, y: int)
      requires Valid()
      modifies this
      ensures Valid() && Settings() == old(Settings())
      ensures Current() == Screen(old(Current()).pic, x, y, 0)
    {
      cursorX, cursorY := x, y;
      columnCount := 0;
    }

    method ScrollUp(lines: int)
      requires Valid()
      modifies framebuffer.data
      ensures Current() == old(Current()).(pic := ScrolledBy(old(Current()).pic, framebuffer.height,
                                                            lines * style.font.height, style.background))
    {
      ScrollPixels(framebuffer, lines * style.font.height, style.background);
    }

    method MoveCursorRightOnce()
      requires Valid()
      modifies this`cursorX, this`columnCount
      ensures Valid() && Current() == MovedRight(Settings(), old(Current()))
    {
      cursorX := cursorX + style.font.width;
      columnCount := columnCount + 1;
    }

    method InsertLineBreak()
      requires Valid()
      modifies this`cursorX, this`cursorY, this`columnCount, framebuffer.data
      ensures Valid() && Current() == LineBroken(Settings(), old(Current()))
    {
      hide Scrolled, ScrolledBy;
      cursorY := cursorY + style.font.height;
      cursorX := cursorX - columnCount * style.font.width;
      columnCount := 0;
      if cursorY >= framebuffer.height {
        ghost var pic := framebuffer.Picture();
        ScrollUp(1);
        PictureIsSized(pic, framebuffer.width, framebuffer.height);
        ScrollsUp(pic, framebuffer.width, framebuffer.height, style.font.height, style.background);
        cursorY := cursorY - style.font.height;
      }
    }

    method DrawCharacter(character: int)
      requires Valid()
      modifies this`cursorX, this`cursorY, this`columnCount, framebuffer.data
      ensures Valid() && Current() == Typed(Settings(), old(Current()), character)
    {
      hide LineBroken, Inked;
      if character == NEWLINE {
        InsertLineBreak();
        return;
      }
      if character < style.font.startingCharacter || character > style.font.endingCharacter {
        MoveCursorRightOnce();
        return;
      }
      if characterWrapEnabled && style.font.width + cursorX > framebuffer.width {
        InsertLineBreak();
      }
      var width := TextDrawing.DrawCharacter(framebuffer, style, character, cursorX, cursorY);
      MoveCursorRightOnce();
    }

    /** `text` is the string up to its terminating null. */
    method DrawText(text: seq<int>)
      requires Valid()
      modifies this`cursorX, this`cursorY, this`columnCount, framebuffer.data
      ensures Valid() && Current() == TypedAll(Settings(), old(Current()), text)
    {
      hide Typed;
      ghost var g, goal := Settings(), TypedAll(Settings(), Current(), text);
      for i := 0 to |text|
        invariant Valid() && Settings() == g
        invariant TypedAll(g, Current(), text[i..]) == goal
      {
        assert text[i..][1..] == text[i + 1..];
        DrawCharacter(text[i]);
      }
    }
  }

  // ---- The text it shows ----

  /** A character cell of the text: one drawn, or one that was stepped over. */
  datatype Cell = Blank | Shown(ch: int)

  type Line = seq<Cell>

  /** One character added to a text: a line is broken by a newline and, lazily, when the next
      character to be drawn would not fit. */
  function Fed(g: Setting, left: int, lines: seq<Line>, ch: int): seq<Line>
    requires lines != []
  {
    var last := lines[|lines| - 1];
    if ch == NEWLINE then lines + [[]]
    else if !g.style.font.Has(ch) then lines[|lines| - 1 := last + [Blank]]
    else if g.wrap && left + g.style.font.width * (|last| + 1) > g.width then lines + [[Shown(ch)]]
    else lines[|lines| - 1 := last + [Shown(ch)]]
  }

  function Layout(g: Setting, left: int, lines: seq<Line>, text: seq<int>): seq<Line>
    requires lines != []
    decreases |text|
  {
    if text == [] then lines else Layout(g, left, Fed(g, left, lines, text[0]), text[1..])
  }

  /** The last lines of a text, as many as there is room for. */
  function Visible(lines: seq<Line>, rows: nat): seq<Line> {
    if |lines| <= rows then lines else lines[|lines| - rows..]
  }

  /** Outside the text, a page is blank. */
  function CellOf(page: seq<Line>, row: nat, column: nat): Cell {
    if row < |page| && column < |page[row]| then page[row][column] else Blank
  }

  /** The colour of one pixel of a page of text. */
  function PageColor(style: Style, left: nat, page: seq<Line>, p: Point): Color
    requires style.font.Valid() && 0 < style.font.width && 0 < style.font.height && 0 <= p.x && 0 <= p.y
    requires Printable(style.font, page)
  {
    if p.x < left then style.background
    else
      match CellOf(page, p.y / style.font.height, (p.x - left) / style.font.width)
      case Shown(ch) => CellColor(style, ch, (p.x - left) % style.font.width, p.y % style.font.height)
      case Blank => style.background
  }

  predicate Printable(font: FontSet, page: seq<Line>) {
    forall r, c :: 0 <= r < |page| && 0 <= c < |page[r]| && page[r][c].Shown? ==> font.Has(page[r][c].ch)
  }

  /** No drawn character sticks out of the framebuffer on the right. */
  predicate Unclipped(g: Setting, left: nat, page: seq<Line>) {
    forall r, c :: 0 <= r < |page| && 0 <= c < |page[r]| && page[r][c].Shown? ==>
      left + g.style.font.width * (c + 1) <= g.width
  }

  /** The page as a picture. */
  ghost function Rendered(g: Setting, left: nat, page: seq<Line>): Picture
    requires g.style.font.Valid() && 0 < g.style.font.width && 0 < g.style.font.height
    requires Printable(g.style.font, page)
  {
    map p | p in Area(g.width, g.height) :: PageColor(g.style, left, page, p)
  }

  // ---- The refinement ----

  /** Wrapping is on, the height is a whole number of text lines, and a glyph fits the width. */
  predicate Roomy(g: Setting, left: nat, rows: nat) {
    && g.Valid() && g.wrap
    && 0 < g.style.font.width && left + g.style.font.width <= g.width && 0 < g.style.font.height
    && 0 < rows && g.height == rows * g.style.font.height
  }

  /** The screen shows the last lines of the text, with the cursor at its end. */
  ghost predicate Shows(g: Setting, left: nat, rows: nat, s: Screen, lines: seq<Line>)
    requires Roomy(g, left, rows)
  {
    && lines != [] && Printable(g.style.font, lines) && Unclipped(g, left, lines)
    && var page, last := Visible(lines, rows), lines[|lines| - 1];
       && s.pic == Rendered(g, left, page)
       && s.columns == |last|
       && s.x == left + g.style.font.width * |last|
       && s.y == g.style.font.height * (|page| - 1)
  }

  /** Along one axis, the pixels of box number `n` are those that lie in it after conversion. */
  lemma BoxAxis(u: U16, size: nat, n: nat, start: nat)
    requires 0 < size && start == size * n && start + size <= 65535
    ensures ToU16(u - start) < size <==> u / size == n
    ensures u / size == n ==> u % size == ToU16(u - start)
  {
    QuotientMeans(u, n, size);
    if u / size == n {
      assert u % size == u - start;
    }
  }

  /** Drawing a character's box in the cell after the last line's end adds it to the page. */
  lemma InkedPage(g: Setting, left: nat, page: seq<Line>, ch: int, p: Point, x: nat, y: nat)
    requires g.Valid() && 0 < g.style.font.width && 0 < g.style.font.height
    requires page != [] && Printable(g.style.font, page) && g.style.font.Has(ch)
    requires 0 <= p.x < g.width && 0 <= p.y < g.height
    requires x == left + g.style.font.width * |page[|page| - 1]| && x + g.style.font.width <= g.width
    requires y == g.style.font.height * (|page| - 1) && y + g.style.font.height <= g.height
    ensures var page' := page[|page| - 1 := page[|page| - 1] + [Shown(ch)]];
            var dx, dy := ToU16(p.x - x), ToU16(p.y - y);
            && Printable(g.style.font, page')
            && PageColor(g.style, left, page', p) ==
               if dx < g.style.font.width && dy < g.style.font.height then CellColor(g.style, ch, dx, dy)
               else PageColor(g.style, left, page, p)
  {
    var w, h, m := g.style.font.width, g.style.font.height, |page| - 1;
    BoxColumn(p.x, left, w, |page[m]|, x);
    BoxAxis(p.y, h, m, y);
    assert Printable(g.style.font, page[m := page[m] + [Shown(ch)]]);
    hide CellColor, ToU16, CellOf, Printable;
    if left <= p.x {
      QuotientsAreNatural(Point(p.x - left, p.y), w, h);
      CellOfAppended(page, Shown(ch), p.y / h, (p.x - left) / w);
    }
  }

  lemma BoxColumn(u: U16, left: nat, size: nat, n: nat, start: nat)
    requires 0 < size && start == left + size * n && start + size <= 65535
    ensures ToU16(u - start) < size <==> left <= u && (u - left) / size == n
    ensures left <= u && (u - left) / size == n ==> (u - left) % size == ToU16(u - start)
  {
    if left <= u {
      BoxAxis(u - left, size, n, start - left);
    } else {
      assert ToU16(u - start) == u - start + 65536;
    }
  }

  lemma QuotientsAreNatural(p: Point, w: nat, h: nat)
    requires 0 <= p.x && 0 <= p.y && 0 < w && 0 < h
    ensures 0 <= p.x / w && 0 <= p.y / h
  {
  }

  lemma CellOfAppended(page: seq<Line>, cell: Cell, row: nat, column: nat)
    requires page != []
    ensures var m := |page| - 1;
            CellOf(page[m := page[m] + [cell]], row, column) ==
            if row == m && column == |page[m]| then cell else CellOf(page, row, column)
  {
  }

  /** A cell that is stepped over changes no pixel. */
  lemma BlankPage(style: Style, left: nat, page: seq<Line>, p: Point)
    requires style.font.Valid() && 0 < style.font.width && 0 < style.font.height
    requires page != [] && Printable(style.font, page) && 0 <= p.x && 0 <= p.y
    ensures var last := page[|page| - 1];
            var page' := page[|page| - 1 := last + [Blank]];
            Printable(style.font, page') && PageColor(style, left, page', p) == PageColor(style, left, page, p)
  {
    hide CellColor;
  }

  /** Nor does an empty line below. */
  lemma EmptyLinePage(style: Style, left: nat, page: seq<Line>, p: Point)
    requires style.font.Valid() && 0 < style.font.width && 0 < style.font.height
    requires Printable(style.font, page) && 0 <= p.x && 0 <= p.y
    ensures Printable(style.font, page + [[]])
    ensures PageColor(style, left, page + [[]], p) == PageColor(style, left, page, p)
  {
    hide CellColor;
  }

  /** One text line further down is the next line of the page. */
  lemma RaisedPage(style: Style, left: nat, page: seq<Line>, p: Point)
    requires style.font.Valid() && 0 < style.font.width && 0 < style.font.height
    requires page != [] && Printable(style.font, page) && 0 <= p.x && 0 <= p.y
    ensures Printable(style.font, page[1..])
    ensures PageColor(style, left, page[1..], p) == PageColor(style, left, page, Point(p.x, p.y + style.font.height))
  {
    var h := style.font.height;
    QuotientMeans(p.y, p.y / h, h);
    QuotientMeans(p.y + h, p.y / h + 1, h);
    assert h * (p.y / h + 1) == h * (p.y / h) + h;
    assert (p.y + h) % h == p.y % h;
    hide CellColor;
  }

  /** Below the last line of a full page there is nothing but background. */
  lemma BelowPage(style: Style, left: nat, page: seq<Line>, p: Point, rows: nat)
    requires style.font.Valid() && 0 < style.font.width && 0 < style.font.height
    requires Printable(style.font, page) && |page| < rows && 0 <= p.x
    requires rows * style.font.height <= p.y + style.font.height
    ensures 0 <= p.y && PageColor(style, left, page, p) == style.background
  {
    var h := style.font.height;
    assert (rows - 1) * h == rows * h - h;
    MulMono(0, rows - 1, h);
    QuotientAtLeast(p.y, rows - 1, h);
    hide CellColor;
  }

  lemma VisibleOfChanged(lines: seq<Line>, rows: nat, last: Line)
    requires lines != [] && 0 < rows
    ensures var page, changed := Visible(lines, rows), lines[|lines| - 1 := last];
            && page != [] && page[|page| - 1] == lines[|lines| - 1]
            && Visible(changed, rows) == page[|page| - 1 := last]
  {
  }

  lemma VisibleOfLonger(lines: seq<Line>, rows: nat, line: Line)
    requires lines != [] && 0 < rows
    ensures Visible(lines + [line], rows) ==
            if |lines| < rows then lines + [line] else Visible(lines, rows)[1..] + [line]
  {
  }

  /** The last line of the page starts inside the framebuffer with room for a glyph's height. */
  lemma LastLineFits(g: Setting, left: nat, rows: nat, lines: seq<Line>)
    requires Roomy(g, left, rows) && lines != []
    ensures var y := g.style.font.height * (|Visible(lines, rows)| - 1);
            0 <= y && y + g.style.font.height <= g.height
  {
    var n, h := |Visible(lines, rows)|, g.style.font.height;
    MulMono(0, n - 1, h);
    MulMono(n, rows, h);
    assert h * (n - 1) == n * h - h;
  }

  /** Drawing a character where the last line ends turns the picture of one page into that of
      the page with the character added. */
  lemma InkedPicture(g: Setting, left: nat, page: seq<Line>, ch: int, x: nat, y: nat)
    requires g.Valid() && 0 < g.style.font.width && 0 < g.style.font.height
    requires page != [] && Printable(g.style.font, page) && g.style.font.Has(ch)
    requires x == left + g.style.font.width * |page[|page| - 1]| && x + g.style.font.width <= g.width
    requires y == g.style.font.height * (|page| - 1) && y + g.style.font.height <= g.height
    ensures var page' := page[|page| - 1 := page[|page| - 1] + [Shown(ch)]];
            Printable(g.style.font, page')
            && Inked(Rendered(g, left, page), g.style, ch, x, y) == Rendered(g, left, page')
  {
    hide CellColor, PageColor, ToU16, Area;
    var page' := page[|page| - 1 := page[|page| - 1] + [Shown(ch)]];
    assert Printable(g.style.font, page');
    hide Printable;
    forall p | p in Area(g.width, g.height)
      ensures Inked(Rendered(g, left, page), g.style, ch, x, y)[p] == Rendered(g, left, page')[p]
    {
      AreaMeans(g.width, g.height, p);
      InkedPage(g, left, page, ch, p, x, y);
    }
  }

  lemma ShownIsTyped(g: Setting, left: nat, rows: nat, s: Screen, lines: seq<Line>, ch: int)
    requires Roomy(g, left, rows) && Shows(g, left, rows, s, lines) && g.style.font.Has(ch)
    requires left + g.style.font.width * (|lines[|lines| - 1]| + 1) <= g.width
    ensures Shows(g, left, rows, MovedRight(g, s.(pic := Inked(s.pic, g.style, ch, s.x, s.y))),
                  lines[|lines| - 1 := lines[|lines| - 1] + [Shown(ch)]])
  {
    var last, page := lines[|lines| - 1], Visible(lines, rows);
    var lines' := lines[|lines| - 1 := last + [Shown(ch)]];
    var w := g.style.font.width;
    assert w * (|last| + 1) == w * |last| + w;
    VisibleOfChanged(lines, rows, last + [Shown(ch)]);
    LastLineFits(g, left, rows, lines);
    assert Printable(g.style.font, lines') && Unclipped(g, left, lines') && Printable(g.style.font, page);
    hide Printable, Unclipped, Visible, Rendered, Inked;
    InkedPicture(g, left, page, ch, s.x, s.y);
  }

  lemma AreaMeans(width: int, height: int, p: Point)
    ensures p in Area(width, height) <==> 0 <= p.x < width && 0 <= p.y < height
  {
  }

  lemma BlankIsTyped(g: Setting, left: nat, rows: nat, s: Screen, lines: seq<Line>)
    requires Roomy(g, left, rows) && Shows(g, left, rows, s, lines)
    ensures Shows(g, left, rows, MovedRight(g, s), lines[|lines| - 1 := lines[|lines| - 1] + [Blank]])
  {
    var last, page := lines[|lines| - 1], Visible(lines, rows);
    var line := last + [Blank];
    var w := g.style.font.width;
    assert w * (|last| + 1) == w * |last| + w;
    VisibleOfChanged(lines, rows, line);
    var page' := page[|page| - 1 := line];
    assert Printable(g.style.font, lines[|lines| - 1 := line]) && Unclipped(g, left, lines[|lines| - 1 := line]);
    assert Printable(g.style.font, page) && Printable(g.style.font, page');
    hide Printable, Unclipped, Visible, CellColor, PageColor, Area;
    forall p | p in Area(g.width, g.height)
      ensures Rendered(g, left, page)[p] == Rendered(g, left, page')[p]
    {
      AreaMeans(g.width, g.height, p);
      BlankPage(g.style, left, page, p);
    }
  }

  lemma LongerPicture(g: Setting, left: nat, page: seq<Line>)
    requires g.Valid() && 0 < g.style.font.width && 0 < g.style.font.height && Printable(g.style.font, page)
    ensures Printable(g.style.font, page + [[]]) && Rendered(g, left, page + [[]]) == Rendered(g, left, page)
  {
    assert Printable(g.style.font, page + [[]]);
    hide Printable, CellColor, PageColor, Area;
    forall p | p in Area(g.width, g.height)
      ensures Rendered(g, left, page + [[]])[p] == Rendered(g, left, page)[p]
    {
      AreaMeans(g.width, g.height, p);
      EmptyLinePage(g.style, left, page, p);
    }
  }

  /** Scrolling the picture of a full page by one line drops its first line. */
  lemma ScrolledPicture(g: Setting, left: nat, rows: nat, page: seq<Line>)
    requires Roomy(g, left, rows) && |page| == rows && Printable(g.style.font, page)
    ensures Printable(g.style.font, page[1..] + [[]])
    ensures Scrolled(Rendered(g, left, page), g.height, g.style.font.height, g.style.background)
         == Rendered(g, left, page[1..] + [[]])
  {
    assert Printable(g.style.font, page[1..]);
    assert Printable(g.style.font, page[1..] + [[]]);
    hide Printable, CellColor, PageColor, Area, Raised;
    forall p | p in Area(g.width, g.height)
      ensures Scrolled(Rendered(g, left, page), g.height, g.style.font.height, g.style.background)[p]
           == Rendered(g, left, page[1..] + [[]])[p]
    {
      ScrolledPagePixel(g, left, rows, page, p);
    }
  }

  lemma BreakIsTyped(g: Setting, left: nat, rows: nat, s: Screen, lines: seq<Line>)
    requires Roomy(g, left, rows) && Shows(g, left, rows, s, lines)
    ensures Shows(g, left, rows, LineBroken(g, s), lines + [[]])
  {
    var page, h := Visible(lines, rows), g.style.font.height;
    VisibleOfLonger(lines, rows, []);
    hide Rendered, Scrolled;
    EmptyLineFits(g, left, lines, rows);
    hide Printable, Unclipped, Visible;
    RowStart(h, |page|, rows);
    if |lines| < rows {
      LongerPicture(g, left, page);
    } else {
      ScrolledPicture(g, left, rows, page);
    }
  }

  lemma EmptyLineFits(g: Setting, left: nat, lines: seq<Line>, rows: nat)
    requires Printable(g.style.font, lines) && Unclipped(g, left, lines)
    ensures Printable(g.style.font, lines + [[]]) && Unclipped(g, left, lines + [[]])
    ensures Printable(g.style.font, Visible(lines, rows))
    ensures |Visible(lines, rows)| == if |lines| < rows then |lines| else rows
    ensures |lines| < rows ==> Visible(lines, rows) == lines
  {
  }

  lemma RowStart(h: nat, n: nat, rows: nat)
    ensures h * (n - 1) + h == h * n
    ensures n < rows ==> h * n + h <= rows * h
    ensures n == rows ==> h * n == rows * h
  {
    MulMono(n + 1, rows, h);
  }

  lemma ScrolledPagePixel(g: Setting, left: nat, rows: nat, page: seq<Line>, p: Point)
    requires Roomy(g, left, rows) && |page| == rows && Printable(g.style.font, page)
    requires p in Area(g.width, g.height)
    ensures Printable(g.style.font, page[1..] + [[]]) && 0 <= p.x && 0 <= p.y
    ensures Raised(Rendered(g, left, page), p, g.height, g.style.font.height, g.style.background)
         == PageColor(g.style, left, page[1..] + [[]], p)
  {
    var h, q := g.style.font.height, Point(p.x, p.y + g.style.font.height);
    AreaMeans(g.width, g.height, p);
    AreaMeans(g.width, g.height, q);
    RaisedPage(g.style, left, page, p);
    EmptyLinePage(g.style, left, page[1..], p);
    hide PageColor, Printable, Area;
    if q.y >= g.height {
      BelowPage(g.style, left, page[1..], p, rows);
    }
  }

  lemma CursorIsAtEnd(g: Setting, left: nat, rows: nat, s: Screen, lines: seq<Line>)
    requires Roomy(g, left, rows) && Shows(g, left, rows, s, lines)
    ensures lines != [] && g.wrap && g.style.font.width <= g.width
    ensures left + g.style.font.width * (|lines[|lines| - 1]| + 1) == g.style.font.width + s.x
  {
    hide Rendered, Printable, Unclipped;
  }

  lemma WrappedIsTyped(g: Setting, left: nat, rows: nat, s: Screen, lines: seq<Line>, ch: int)
    requires Roomy(g, left, rows) && Shows(g, left, rows, s, lines) && g.style.font.Has(ch)
    ensures Shows(g, left, rows, MovedRight(g, LineBroken(g, s).(pic := Inked(LineBroken(g, s).pic, g.style, ch,
                                                                        LineBroken(g, s).x, LineBroken(g, s).y))),
                  lines + [[Shown(ch)]])
  {
    hide Shows, LineBroken, Inked, MovedRight;
    CursorIsAtEnd(g, left, rows, s, lines);
    hide Roomy;
    BreakIsTyped(g, left, rows, s, lines);
    var broken := lines + [[]];
    assert broken[|broken| - 1] == [];
    ShownIsTyped(g, left, rows, LineBroken(g, s), broken, ch);
    assert broken[|broken| - 1] + [Shown(ch)] == [Shown(ch)];
    assert broken[|broken| - 1 := [Shown(ch)]] == lines + [[Shown(ch)]];
  }

  /** The three ways in which one character changes screen and text. */
  lemma TypedCases(g: Setting, left: nat, s: Screen, lines: seq<Line>, ch: int)
    requires g.Valid() && g.wrap && lines != []
    requires left + g.style.font.width * (|lines[|lines| - 1]| + 1) == g.style.font.width + s.x
    ensures Typed(g, s, ch) ==
            if ch == NEWLINE then LineBroken(g, s)
            else if !g.style.font.Has(ch) then MovedRight(g, s)
            else if g.style.font.width + s.x > g.width then
              var b := LineBroken(g, s);
              MovedRight(g, b.(pic := Inked(b.pic, g.style, ch, b.x, b.y)))
            else MovedRight(g, s.(pic := Inked(s.pic, g.style, ch, s.x, s.y)))
    ensures Fed(g, left, lines, ch) ==
            if ch == NEWLINE then lines + [[]]
            else if !g.style.font.Has(ch) then lines[|lines| - 1 := lines[|lines| - 1] + [Blank]]
            else if g.style.font.width + s.x > g.width then lines + [[Shown(ch)]]
            else lines[|lines| - 1 := lines[|lines| - 1] + [Shown(ch)]]
  {
    hide LineBroken, Inked, MovedRight;
  }

  /** One character keeps the screen and the text in step. */
  lemma TypedShows(g: Setting, left: nat, rows: nat, s: Screen, lines: seq<Line>, ch: int)
    requires Roomy(g, left, rows) && Shows(g, left, rows, s, lines)
    ensures Fed(g, left, lines, ch) != []
    ensures Shows(g, left, rows, Typed(g, s, ch), Fed(g, left, lines, ch))
  {
    hide Shows, LineBroken, Inked, MovedRight, Typed, Fed;
    CursorIsAtEnd(g, left, rows, s, lines);
    TypedCases(g, left, s, lines, ch);
    hide Roomy;
    if ch == NEWLINE {
      BreakIsTyped(g, left, rows, s, lines);
    } else if !g.style.font.Has(ch) {
      BlankIsTyped(g, left, rows, s, lines);
    } else if g.style.font.width + s.x > g.width {
      WrappedIsTyped(g, left, rows, s, lines, ch);
    } else {
      ShownIsTyped(g, left, rows, s, lines, ch);
    }
  }

  lemma {:induction false} TypedAllShows(g: Setting, left: nat, rows: nat, s: Screen, lines: seq<Line>, text: seq<int>)
    requires Roomy(g, left, rows) && Shows(g, left, rows, s, lines)
    ensures Layout(g, left, lines, text) != []
    ensures Shows(g, left, rows, TypedAll(g, s, text), Layout(g, left, lines, text))
    decreases |text|
  {
    if text == [] {
      assert lines != [];
    } else {
      hide Typed, Fed, Shows;
      assert Fed(g, left, lines, text[0]) != [] by { FedIsNotEmpty(g, left, lines, text[0]); }
      TypedShows(g, left, rows, s, lines, text[0]);
      TypedAllShows(g, left, rows, Typed(g, s, text[0]), Fed(g, left, lines, text[0]), text[1..]);
    }
  }

  lemma FedIsNotEmpty(g: Setting, left: int, lines: seq<Line>, ch: int)
    requires lines != []
    ensures Fed(g, left, lines, ch) != []
  {
  }

  /** Lines on which nothing has been typed yet. */
  function EmptyLines(n: nat): (lines: seq<Line>)
    ensures |lines| == n
  {
    seq(n, _ => [])
  }

  /** Any text, drawn on a cleared framebuffer with wrapping on, from any column and any text line
      on which a glyph fits: the pixels are those of the last lines of the wrapped text, with no
      glyph clipped. */
  lemma TextAreaShowsTheLastLines(g: Setting, left: nat, rows: nat, top: nat, text: seq<int>)
    requires Roomy(g, left, rows) && top < rows
    ensures var cleared := map p | p in Area(g.width, g.height) :: g.style.background;
            var lines := Layout(g, left, EmptyLines(top + 1), text);
            var s := TypedAll(g, Screen(cleared, left, g.style.font.height * top, 0), text);
            && lines != [] && Unclipped(g, left, lines)
            && Printable(g.style.font, Visible(lines, rows))
            && s.pic == Rendered(g, left, Visible(lines, rows))
  {
    var cleared := map p | p in Area(g.width, g.height) :: g.style.background;
    var lines := EmptyLines(top + 1);
    hide TypedAll, Layout;
    ClearedShowsNothing(g, left, rows, top, cleared);
    TypedAllShows(g, left, rows, Screen(cleared, left, g.style.font.height * top, 0), lines, text);
    hide Rendered, Unclipped, Roomy;
    VisibleIsPrintable(g.style.font, Layout(g, left, lines, text), rows);
  }

  lemma VisibleIsPrintable(font: FontSet, lines: seq<Line>, rows: nat)
    requires Printable(font, lines)
    ensures Printable(font, Visible(lines, rows))
  {
  }

  lemma ClearedShowsNothing(g: Setting, left: nat, rows: nat, top: nat, cleared: Picture)
    requires Roomy(g, left, rows)
    requires cleared == map p | p in Area(g.width, g.height) :: g.style.background
    requires top < rows
    ensures Shows(g, left, rows, Screen(cleared, left, g.style.font.height * top, 0), EmptyLines(top + 1))
  {
    var page := EmptyLines(top + 1);
    assert Visible(page, rows) == page && Printable(g.style.font, page);
    hide Area, PageColor;
    forall p | p in Area(g.width, g.height)
      ensures Rendered(g, left, page)[p] == g.style.background
    {
      AreaMeans(g.width, g.height, p);
      EmptyPage(g.style, left, page, p);
    }
  }

  lemma EmptyPage(style: Style, left: nat, page: seq<Line>, p: Point)
    requires style.font.Valid() && 0 < style.font.width && 0 < style.font.height && 0 <= p.x && 0 <= p.y
    requires forall r :: 0 <= r < |page| ==> page[r] == []
    ensures Printable(style.font, page) && PageColor(style, left, page, p) == style.background
  {
    hide CellColor;
    assert forall row, column :: CellOf(page, row, column) == Blank;
  }

  // ---- Nothing is lost in the wrapping ----

  /** The cells a text consists of: every character but newlines. */
  function CellsOf(font: FontSet, text: seq<int>): seq<Cell> {
    if text == [] then []
    else
      var rest := CellsOf(font, text[1..]);
      if text[0] == NEWLINE then rest else [if font.Has(text[0]) then Shown(text[0]) else Blank] + rest
  }

  function Joined(lines: seq<Line>): seq<Cell> {
    if lines == [] then [] else Joined(lines[..|lines| - 1]) + lines[|lines| - 1]
  }

  lemma JoinedFed(g: Setting, left: int, lines: seq<Line>, ch: int)
    requires lines != []
    ensures Joined(Fed(g, left, lines, ch)) == Joined(lines) + CellsOf(g.style.font, [ch])
  {
    var front, last := lines[..|lines| - 1], lines[|lines| - 1];
    var cells := CellsOf(g.style.font, [ch]);
    var one := [ch];
    assert one[1..] == [] && CellsOf(g.style.font, one[1..]) == [];
    assert cells == (if ch == NEWLINE then [] else if g.style.font.Has(ch) then [Shown(ch)] else [Blank]);
    assert lines + [cells] == Fed(g, left, lines, ch) || lines[|lines| - 1 := last + cells] == Fed(g, left, lines, ch);
    assert (lines + [cells])[..|lines|] == lines;
    assert lines[|lines| - 1 := last + cells][..|lines| - 1] == front;
    assert Joined(front) + (last + cells) == Joined(front) + last + cells;
  }

  /** The lines of a wrapped text, joined, are the characters of the text in order. */
  lemma {:induction false} LayoutKeepsEveryCharacter(g: Setting, left: int, lines: seq<Line>, text: seq<int>)
    requires lines != []
    ensures Joined(Layout(g, left, lines, text)) == Joined(lines) + CellsOf(g.style.font, text)
    decreases |text|
  {
    if text == [] {
    } else {
      hide Joined, Fed, CellsOf;
      FedIsNotEmpty(g, left, lines, text[0]);
      JoinedFed(g, left, lines, text[0]);
      LayoutKeepsEveryCharacter(g, left, Fed(g, left, lines, text[0]), text[1..]);
      CellsOfMore(g.style.font, text);
      Regroup(Joined(lines), CellsOf(g.style.font, [text[0]]), CellsOf(g.style.font, text[1..]));
    }
  }

  lemma CellsOfMore(font: FontSet, text: seq<int>)
    requires text != []
    ensures CellsOf(font, text) == CellsOf(font, [text[0]]) + CellsOf(font, text[1..])
  {
    var one := [text[0]];
    assert one[1..] == [];
  }
}
