/** pw_draw's horizontal lines, rectangles and scaled sprites. */
module Sprites {
  import opened Framebuffers

  function HLinePoints(x1: int, x2: int, y: int): seq<Point>
    decreases x2 - x1 + 1
  {
    if x1 > x2 then [] else [Point(x1, y)] + HLinePoints(x1 + 1, x2, y)
  }

  function RowsPoints(x1: int, x2: int, y: int, yEnd: int): seq<Point>
    decreases yEnd - y
  {
    if y >= yEnd then [] else HLinePoints(x1, x2, y) + RowsPoints(x1, x2, y + 1, yEnd)
  }

  function SidesPoints(x1: int, x2: int, y: int, yEnd: int): seq<Point>
    decreases yEnd - y
  {
    if y >= yEnd then [] else [Point(x1, y), Point(x2, y)] + SidesPoints(x1, x2, y + 1, yEnd)
  }

  /** Top line, bottom line, then everything between. */
  function RectPoints(x1: int, y1: int, x2: int, y2: int, filled: bool): seq<Point> {
    HLinePoints(x1, x2, y1) + HLinePoints(x1, x2, y2)
    + if filled then RowsPoints(x1, x2, y1 + 1, y2) else SidesPoints(x1, x2, y1 + 1, y2)
  }

  lemma {:induction false} HLineMeaning(x1: int, x2: int, y: int, q: Point)
    ensures q in HLinePoints(x1, x2, y) <==> x1 <= q.x <= x2 && q.y == y
    decreases x2 - x1 + 1
  {
    if x1 > x2 {
    } else {
      HLineMeaning(x1 + 1, x2, y, q);
      assert q in HLinePoints(x1, x2, y) <==> q == Point(x1, y) || q in HLinePoints(x1 + 1, x2, y);
    }
  }

  lemma {:induction false} RowsMeaning(x1: int, x2: int, y: int, yEnd: int, q: Point)
    ensures q in RowsPoints(x1, x2, y, yEnd) <==> x1 <= q.x <= x2 && y <= q.y < yEnd
    decreases yEnd - y
  {
    if y >= yEnd {
    } else {
      HLineMeaning(x1, x2, y, q);
      RowsMeaning(x1, x2, y + 1, yEnd, q);
      assert q in RowsPoints(x1, x2, y, yEnd) <==>
             q in HLinePoints(x1, x2, y) || q in RowsPoints(x1, x2, y + 1, yEnd);
    }
  }

  lemma {:induction false} SidesMeaning(x1: int, x2: int, y: int, yEnd: int, q: Point)
    ensures q in SidesPoints(x1, x2, y, yEnd) <==> (q.x == x1 || q.x == x2) && y <= q.y < yEnd
    decreases yEnd - y
  {
    if y >= yEnd {
    } else {
      SidesMeaning(x1, x2, y + 1, yEnd, q);
      assert q in SidesPoints(x1, x2, y, yEnd) <==>
             q == Point(x1, y) || q == Point(x2, y) || q in SidesPoints(x1, x2, y + 1, yEnd);
    }
  }

  /** The points of a rectangle for any corners: the top and bottom lines always, and what is
      strictly between them. */
  predicate InRect(q: Point, x1: int, y1: int, x2: int, y2: int, filled: bool) {
    || (x1 <= q.x <= x2 && (q.y == y1 || q.y == y2 || (filled && y1 < q.y < y2)))
    || (!filled && (q.x == x1 || q.x == x2) && y1 < q.y < y2)
  }

  /** With ordered corners, a filled rectangle is every point between them, an outline every
      point on its edge; otherwise sides or lines are missing. */
  lemma RectMeaning(x1: int, y1: int, x2: int, y2: int, filled: bool, q: Point)
    ensures q in RectPoints(x1, y1, x2, y2, filled) <==> InRect(q, x1, y1, x2, y2, filled)
    ensures x1 <= x2 && y1 <= y2 ==>
              (InRect(q, x1, y1, x2, y2, filled) <==>
               && x1 <= q.x <= x2 && y1 <= q.y <= y2
               && (filled || q.x == x1 || q.x == x2 || q.y == y1 || q.y == y2))
  {
    hide HLinePoints, RowsPoints, SidesPoints;
    HLineMeaning(x1, x2, y1, q);
    HLineMeaning(x1, x2, y2, q);
    RowsMeaning(x1, x2, y1 + 1, y2, q);
    SidesMeaning(x1, x2, y1 + 1, y2, q);
  }

  method DrawHLine(fb: Framebuffer, x1: int, x2: int, y: int, penColor: Color)
    requires fb.Valid()
    modifies fb.data
    ensures fb.Picture() == PlotAll(old(fb.Picture()), HLinePoints(x1, x2, y), penColor)
  {
    ghost var goal := PlotAll(fb.Picture(), HLinePoints(x1, x2, y), penColor);
    hide PlotPoint;
    var i := x1;
    while i <= x2
      invariant PlotAll(fb.Picture(), HLinePoints(i, x2, y), penColor) == goal
    {
      PlotAllCons(fb.Picture(), Point(i, y), HLinePoints(i + 1, x2, y), penColor);
      fb.SetPixelAt(i, y, penColor);
      i := i + 1;
    }
  }

  method DrawRect(fb: Framebuffer, x1: int, y1: int, x2: int, y2: int, penColor: Color, filled: bool)
    requires fb.Valid()
    modifies fb.data
    ensures fb.Picture() == PlotAll(old(fb.Picture()), RectPoints(x1, y1, x2, y2, filled), penColor)
  {
    hide PlotPoint, PlotAll, HLinePoints;
    ghost var top, bottom := HLinePoints(x1, x2, y1), HLinePoints(x1, x2, y2);
    ghost var middle := if filled then RowsPoints(x1, x2, y1 + 1, y2) else SidesPoints(x1, x2, y1 + 1, y2);
    PlotAllConcat(fb.Picture(), top + bottom, middle, penColor);
    PlotAllConcat(fb.Picture(), top, bottom, penColor);
    DrawHLine(fb, x1, x2, y1, penColor);
    DrawHLine(fb, x1, x2, y2, penColor);
    ghost var goal := PlotAll(fb.Picture(), middle, penColor);
    if filled {
      var y := y1 + 1;
      while y < y2
        invariant PlotAll(fb.Picture(), RowsPoints(x1, x2, y, y2), penColor) == goal
        decreases y2 - y
      {
        PlotAllConcat(fb.Picture(), HLinePoints(x1, x2, y), RowsPoints(x1, x2, y + 1, y2), penColor);
        DrawHLine(fb, x1, x2, y, penColor);
        y := y + 1;
      }
      PlotNothing(fb.Picture(), penColor);
    } else {
      var y := y1 + 1;
      while y < y2
        invariant PlotAll(fb.Picture(), SidesPoints(x1, x2, y, y2), penColor) == goal
        decreases y2 - y
      {
        PlotSides(fb.Picture(), x1, x2, y, y2, penColor);
        fb.SetPixelAt(x1, y, penColor);
        fb.SetPixelAt(x2, y, penColor);
        y := y + 1;
      }
      PlotNothing(fb.Picture(), penColor);
    }
  }

  lemma PlotNothing(pic: Picture, c: Color)
    ensures PlotAll(pic, [], c) == pic
  {
  }

  lemma PlotSides(pic: Picture, x1: int, x2: int, y: int, yEnd: int, c: Color)
    requires y < yEnd
    ensures PlotAll(pic, SidesPoints(x1, x2, y, yEnd), c)
         == PlotAll(PlotPoint(PlotPoint(pic, Point(x1, y), c), Point(x2, y), c), SidesPoints(x1, x2, y + 1, yEnd), c)
  {
    var rest := SidesPoints(x1, x2, y + 1, yEnd);
    assert [Point(x1, y), Point(x2, y)] + rest == [Point(x1, y)] + ([Point(x2, y)] + rest);
    PlotAllCons(pic, Point(x1, y), [Point(x2, y)] + rest, c);
    PlotAllCons(PlotPoint(pic, Point(x1, y), c), Point(x2, y), rest, c);
  }

  method DrawRectWH(fb: Framebuffer, x: int, y: int, w: int, h: int, penColor: Color, filled: bool)
    requires fb.Valid()
    modifies fb.data
    ensures fb.Picture() == PlotAll(old(fb.Picture()), RectPoints(x, y, x - 1 + w, y - 1 + h, filled), penColor)
  {
    hide PlotAll, RectPoints;
    DrawRect(fb, x, y, x - 1 + w, y - 1 + h, penColor, filled);
  }

  // ---- Sprites ----

  /** One sprite sheet: `count` sprites of the same size, one below the other. */
  datatype SpriteSheet = SpriteSheet(width: nat, height: nat, count: nat, transparentColor: Color, data: seq<Color>,
                                     currentIndex: nat) {
    predicate Valid() {
      currentIndex < count && count * height * width <= |data|
    }

    function GetColor(x: int, y: int, spriteIndex: int): Color
      requires Valid() && 0 <= x < width && 0 <= y < height && 0 <= spriteIndex < count
    {
      IndexInRange(y, spriteIndex, height, count);
      IndexInRange(x, spriteIndex * height + y, width, count * height);
      data[(spriteIndex * height + y) * width + x]
    }
  }

  /** The pixels of one sprite of a sheet. */
  function SpriteData(sheet: SpriteSheet, spriteIndex: nat): (r: seq<Color>)
    requires sheet.Valid() && spriteIndex < sheet.count
    ensures |r| == sheet.height * sheet.width
  {
    var size := sheet.height * sheet.width;
    MulMono(spriteIndex + 1, sheet.count, size);
    MulMono(0, spriteIndex, size);
    assert (spriteIndex + 1) * size == spriteIndex * size + size;
    Reassociate(sheet.count, sheet.height, 0, sheet.width);
    sheet.data[spriteIndex * size..spriteIndex * size + size]
  }

  /** Colours are looked up row by row within the sprite's own part of the sheet. */
  lemma GetColorIsRowMajor(sheet: SpriteSheet, x: int, y: int, spriteIndex: int)
    requires sheet.Valid() && 0 <= x < sheet.width && 0 <= y < sheet.height && 0 <= spriteIndex < sheet.count
    ensures 0 <= y * sheet.width + x < sheet.height * sheet.width
    ensures sheet.GetColor(x, y, spriteIndex) == SpriteData(sheet, spriteIndex)[y * sheet.width + x]
  {
    IndexInRange(x, y, sheet.width, sheet.height);
    Reassociate(spriteIndex, sheet.height, y, sheet.width);
    IndexInRange(y, spriteIndex, sheet.height, sheet.count);
    IndexInRange(x, spriteIndex * sheet.height + y, sheet.width, sheet.count * sheet.height);
    SpriteDataAt(sheet, spriteIndex, sheet.height * sheet.width, y * sheet.width + x);
  }

  lemma SpriteDataAt(sheet: SpriteSheet, spriteIndex: nat, size: nat, i: nat)
    requires sheet.Valid() && spriteIndex < sheet.count && size == sheet.height * sheet.width && i < size
    ensures 0 <= spriteIndex * size + i < |sheet.data|
    ensures SpriteData(sheet, spriteIndex)[i] == sheet.data[spriteIndex * size + i]
  {
    MulMono(spriteIndex + 1, sheet.count, size);
    MulMono(0, spriteIndex, size);
    assert (spriteIndex + 1) * size == spriteIndex * size + size;
    Reassociate(sheet.count, sheet.height, 0, sheet.width);
  }

  lemma Reassociate(i: int, h: int, y: int, w: int)
    ensures (i * h + y) * w == i * (h * w) + y * w
  {
  }

  /** The colour that the sheet's current sprite has at a cell, if it is to be drawn. */
  function Ink(sheet: SpriteSheet, cell: Point): Option<Color>
    requires sheet.Valid()
  {
    if 0 <= cell.x < sheet.width && 0 <= cell.y < sheet.height then
      var c := sheet.GetColor(cell.x, cell.y, sheet.currentIndex);
      if c == sheet.transparentColor then None else Some(c)
    else None
  }

  /** The block of points that is drawn for one cell. */
  predicate InBlock(q: Point, x: int, y: int, scale: int, cell: Point) {
    && x + scale * cell.x <= q.x <= x - 1 + scale * cell.x + scale
    && y + scale * cell.y <= q.y <= y - 1 + scale * cell.y + scale
  }

  /** Whether a block that starts at `start` in one direction reaches coordinate `u`, modulo 2^16. */
  predicate Reaches(start: int, scale: int, u: int) {
    ToU16(u - start) < scale
  }

  /** Whether a cell's block covers a pixel. */
  predicate Covers(cell: Point, x: int, y: int, scale: int, p: Point) {
    Reaches(x + scale * cell.x, scale, p.x) && Reaches(y + scale * cell.y, scale, p.y)
  }

  /** The last opaque cell that the column-by-column walk, up to row `currentY` of column
      `currentX`, has drawn over a pixel. */
  function LastCell(sheet: SpriteSheet, p: Point, x: int, y: int, scale: int,
                    currentX: nat, currentY: nat): Option<Point>
    requires sheet.Valid()
    decreases currentX, currentY
  {
    if 0 < currentY then
      var cell := Point(currentX, currentY - 1);
      if Ink(sheet, cell).Some? && Covers(cell, x, y, scale, p) then Some(cell)
      else LastCell(sheet, p, x, y, scale, currentX, currentY - 1)
    else if 0 < currentX then LastCell(sheet, p, x, y, scale, currentX - 1, sheet.height)
    else None
  }

  function LastInk(sheet: SpriteSheet, p: Point, x: int, y: int, scale: int,
                   currentX: nat, currentY: nat): Option<Color>
    requires sheet.Valid()
  {
    match LastCell(sheet, p, x, y, scale, currentX, currentY)
    case Some(cell) => Ink(sheet, cell)
    case None => None
  }

  ghost function StampedTo(pic: Picture, sheet: SpriteSheet, x: int, y: int, scale: int,
                           currentX: nat, currentY: nat): Picture
    requires sheet.Valid()
  {
    map p | p in pic :: LastInk(sheet, p, x, y, scale, currentX, currentY).GetOr(pic[p])
  }

  /** Each pixel has the colour of the last opaque cell drawn there; every other pixel stays. */
  ghost function Stamped(pic: Picture, sheet: SpriteSheet, x: int, y: int, scale: int): Picture
    requires sheet.Valid()
  {
    StampedTo(pic, sheet, x, y, scale, sheet.width, 0)
  }

  lemma ReachesMeans(start: int, scale: int, u: U16, i: int)
    ensures Reaches(start, scale, u) ==>
              start <= start + ToU16(u - start) <= start - 1 + scale && ToU16(start + ToU16(u - start)) == u
    ensures start <= i <= start - 1 + scale && ToU16(i) == u ==> Reaches(start, scale, u)
  {
  }

  /** A pixel is covered exactly if some point of the cell's block converts to it. */
  lemma CoversMeans(cell: Point, x: int, y: int, scale: int, p: Point, block: seq<Point>)
    requires 0 <= p.x < 65536 && 0 <= p.y < 65536
    requires forall q :: q in block <==> InBlock(q, x, y, scale, cell)
    ensures Covers(cell, x, y, scale, p) <==> exists q :: q in block && WrapPoint(q) == p
  {
    hide ToU16, Reaches;
    var startX, startY := x + scale * cell.x, y + scale * cell.y;
    ReachesMeans(startX, scale, p.x, 0);
    ReachesMeans(startY, scale, p.y, 0);
    if Covers(cell, x, y, scale, p) {
      var q := Point(startX + ToU16(p.x - startX), startY + ToU16(p.y - startY));
      assert q in block && WrapPoint(q) == p;
    }
    forall q | q in block && WrapPoint(q) == p
      ensures Covers(cell, x, y, scale, p)
    {
      ReachesMeans(startX, scale, p.x, q.x);
      ReachesMeans(startY, scale, p.y, q.y);
    }
  }

  /** Drawing all points of a cell's block is one step of the walk. */
  lemma InkedCell(pic: Picture, sheet: SpriteSheet, x: int, y: int, scale: int, cell: Point, block: seq<Point>)
    requires sheet.Valid() && Addressable(pic)
    requires 0 <= cell.x < sheet.width && 0 <= cell.y < sheet.height && Ink(sheet, cell).Some?
    requires forall q :: q in block <==> InBlock(q, x, y, scale, cell)
    ensures PlotAll(StampedTo(pic, sheet, x, y, scale, cell.x, cell.y), block, Ink(sheet, cell).value)
         == StampedTo(pic, sheet, x, y, scale, cell.x, cell.y + 1)
  {
    var c := Ink(sheet, cell).value;
    var was := StampedTo(pic, sheet, x, y, scale, cell.x, cell.y);
    var goal := StampedTo(pic, sheet, x, y, scale, cell.x, cell.y + 1);
    var now := PlotAll(was, block, c);
    PlotAllDomain(was, block, c);
    hide PlotAll, Covers, WrapPoint, InBlock, Ink, ToU16, PlotPoint;
    forall p | p in pic
      ensures now[p] == goal[p]
    {
      PlotAllMeaning(was, block, c, p);
      CoversMeans(cell, x, y, scale, p, block);
    }
  }

  lemma {:induction false} PlotAllDomain(pic: Picture, pts: seq<Point>, c: Color)
    ensures PlotAll(pic, pts, c).Keys == pic.Keys
    decreases |pts|
  {
    if pts == [] {
    } else {
      PlotAllDomain(PlotPoint(pic, pts[0], c), pts[1..], c);
    }
  }

  lemma TransparentCell(pic: Picture, sheet: SpriteSheet, x: int, y: int, scale: int, currentX: nat, currentY: nat)
    requires sheet.Valid() && Ink(sheet, Point(currentX, currentY)).None?
    ensures StampedTo(pic, sheet, x, y, scale, currentX, currentY)
         == StampedTo(pic, sheet, x, y, scale, currentX, currentY + 1)
  {
    hide Covers, Ink;
  }

  lemma StampStart(pic: Picture, sheet: SpriteSheet, x: int, y: int, scale: int)
    requires sheet.Valid()
    ensures StampedTo(pic, sheet, x, y, scale, 0, 0) == pic
  {
  }

  lemma StampNextColumn(pic: Picture, sheet: SpriteSheet, x: int, y: int, scale: int, currentX: nat)
    requires sheet.Valid()
    ensures StampedTo(pic, sheet, x, y, scale, currentX, sheet.height)
         == StampedTo(pic, sheet, x, y, scale, currentX + 1, 0)
  {
  }

  method DrawSprite(fb: Framebuffer, x: int, y: int, sheet: SpriteSheet, integerScale: int)
    requires fb.Valid() && sheet.Valid()
    modifies fb.data
    ensures fb.Picture() ==
            if integerScale < 1 then old(fb.Picture()) else Stamped(old(fb.Picture()), sheet, x, y, integerScale)
  {
    ghost var before, draws := fb.Picture(), 1 <= integerScale;
    hide StampedTo, PlotAll, PlotPoint, Ink;
    StampStart(before, sheet, x, y, integerScale);
    for currentX := 0 to sheet.width
      invariant fb.Picture() == if draws then StampedTo(before, sheet, x, y, integerScale, currentX, 0) else before
    {
      for currentY := 0 to sheet.height
        invariant fb.Picture() ==
                    if draws then StampedTo(before, sheet, x, y, integerScale, currentX, currentY) else before
      {
        DrawCell(fb, x, y, sheet, integerScale, currentX, currentY, before);
      }
      StampNextColumn(before, sheet, x, y, integerScale, currentX);
    }
  }

  /** The body of DrawSprite's loops. */
  method DrawCell(fb: Framebuffer, x: int, y: int, sheet: SpriteSheet, integerScale: int,
                  currentX: nat, currentY: nat, ghost before: Picture)
    requires fb.Valid() && sheet.Valid() && currentX < sheet.width && currentY < sheet.height
    requires Addressable(before)
    requires 1 <= integerScale ==> fb.Picture() == StampedTo(before, sheet, x, y, integerScale, currentX, currentY)
    modifies fb.data
    ensures fb.Picture() ==
            if integerScale < 1 then old(fb.Picture())
            else StampedTo(before, sheet, x, y, integerScale, currentX, currentY + 1)
  {
    hide StampedTo, PlotAll, PlotPoint, RectPoints, Ink;
    var color := sheet.GetColor(currentX, currentY, sheet.currentIndex);
    InkIs(sheet, currentX, currentY);
    if color == sheet.transparentColor {
      TransparentCell(before, sheet, x, y, integerScale, currentX, currentY);
      return;
    }
    if integerScale == 1 {
      InkedByPixel(before, sheet, x, y, currentX, currentY, color);
      fb.SetPixelAt(x + currentX, y + currentY, color);
    } else if integerScale > 1 {
      var startX := x + integerScale * currentX;
      var startY := y + integerScale * currentY;
      InkedByRect(before, sheet, x, y, integerScale, currentX, currentY, startX, startY, color);
      DrawRectWH(fb, startX, startY, integerScale, integerScale, color, true);
    }
  }

  lemma InkIs(sheet: SpriteSheet, currentX: nat, currentY: nat)
    requires sheet.Valid() && currentX < sheet.width && currentY < sheet.height
    ensures var c := sheet.GetColor(currentX, currentY, sheet.currentIndex);
            Ink(sheet, Point(currentX, currentY)) == if c == sheet.transparentColor then None else Some(c)
  {
  }

  lemma InkedByPixel(before: Picture, sheet: SpriteSheet, x: int, y: int, currentX: nat, currentY: nat, color: Color)
    requires sheet.Valid() && Addressable(before) && currentX < sheet.width && currentY < sheet.height
    requires Ink(sheet, Point(currentX, currentY)) == Some(color)
    ensures PlotPoint(StampedTo(before, sheet, x, y, 1, currentX, currentY), Point(x + currentX, y + currentY), color)
         == StampedTo(before, sheet, x, y, 1, currentX, currentY + 1)
  {
    var cell := Point(currentX, currentY);
    hide StampedTo, PlotAll, PlotPoint, InBlock, Ink;
    BlockIsPoint(x, y, cell);
    InkedCell(before, sheet, x, y, 1, cell, [Point(x + cell.x, y + cell.y)]);
    PlotOne(StampedTo(before, sheet, x, y, 1, currentX, currentY), Point(x + currentX, y + currentY), color);
  }

  lemma InkedByRect(before: Picture, sheet: SpriteSheet, x: int, y: int, scale: int, currentX: nat, currentY: nat,
                    startX: int, startY: int, color: Color)
    requires sheet.Valid() && Addressable(before)
    requires currentX < sheet.width && currentY < sheet.height
    requires 0 < scale && startX == x + scale * currentX && startY == y + scale * currentY
    requires Ink(sheet, Point(currentX, currentY)) == Some(color)
    ensures PlotAll(StampedTo(before, sheet, x, y, scale, currentX, currentY),
                    RectPoints(startX, startY, startX - 1 + scale, startY - 1 + scale, true), color)
         == StampedTo(before, sheet, x, y, scale, currentX, currentY + 1)
  {
    var cell := Point(currentX, currentY);
    hide StampedTo, PlotAll, PlotPoint, InBlock, Ink, RectPoints;
    BlockIsRect(x, y, scale, cell, startX, startY);
    InkedCell(before, sheet, x, y, scale, cell,
              RectPoints(startX, startY, startX - 1 + scale, startY - 1 + scale, true));
  }

  lemma PlotOne(pic: Picture, p: Point, c: Color)
    ensures PlotAll(pic, [p], c) == PlotPoint(pic, p, c)
  {
    PlotAllCons(pic, p, [], c);
  }

  lemma BlockIsPoint(x: int, y: int, cell: Point)
    ensures forall q :: q in [Point(x + cell.x, y + cell.y)] <==> InBlock(q, x, y, 1, cell)
  {
  }

  lemma BlockIsRect(x: int, y: int, scale: int, cell: Point, startX: int, startY: int)
    requires 0 < scale && startX == x + scale * cell.x && startY == y + scale * cell.y
    ensures forall q :: q in RectPoints(startX, startY, startX - 1 + scale, startY - 1 + scale, true) <==>
                        InBlock(q, x, y, scale, cell)
  {
    hide RectPoints;
    forall q
      ensures q in RectPoints(startX, startY, startX - 1 + scale, startY - 1 + scale, true) <==>
              startX <= q.x <= startX - 1 + scale && startY <= q.y <= startY - 1 + scale
    {
      RectMeaning(startX, startY, startX - 1 + scale, startY - 1 + scale, true, q);
    }
  }

  // ---- What the last ink is ----

  /** A cell that is drawn and covers the pixel, among those the walk has passed. */
  predicate IsInked(sheet: SpriteSheet, p: Point, x: int, y: int, scale: int, currentX: nat, currentY: nat, cell: Point)
    requires sheet.Valid()
  {
    Ink(sheet, cell).Some? && Covers(cell, x, y, scale, p) && Passed(cell, currentX, currentY)
  }

  /** Its cell is opaque, covers the pixel and is the last such in the order of the walk. */
  lemma {:induction false} LastCellMeaning(sheet: SpriteSheet, p: Point, x: int, y: int, scale: int,
                                           currentX: nat, currentY: nat, cell: Point)
    requires sheet.Valid() && currentY <= sheet.height
    ensures var last := LastCell(sheet, p, x, y, scale, currentX, currentY);
            && (last.Some? ==> IsInked(sheet, p, x, y, scale, currentX, currentY, last.value))
            && (IsInked(sheet, p, x, y, scale, currentX, currentY, cell) ==>
                  last.Some? && (cell == last.value || Passed(cell, last.value.x, last.value.y)))
    decreases currentX, currentY
  {
    hide Covers, Ink;
    InkIsInside(sheet, cell);
    if currentX == 0 && currentY == 0 {
    } else if currentY == 0 {
      LastCellMeaning(sheet, p, x, y, scale, currentX - 1, sheet.height, cell);
    } else {
      LastCellMeaning(sheet, p, x, y, scale, currentX, currentY - 1, cell);
    }
  }

  lemma InkIsInside(sheet: SpriteSheet, cell: Point)
    requires sheet.Valid()
    ensures Ink(sheet, cell).Some? ==> 0 <= cell.x < sheet.width && 0 <= cell.y < sheet.height
  {
  }

  // ---- Scaled boxes within the coordinate range ----

  /** Which cell a framebuffer pixel belongs to, when the sprite is drawn at (x, y). */
  function CellAt(p: Point, x: int, y: int, scale: int): Point
    requires 0 < scale
  {
    Point(ToU16(p.x - x) / scale, ToU16(p.y - y) / scale)
  }

  /** The scaled box is no larger than the coordinate range, so it does not overlap itself. */
  predicate Fits(sheet: SpriteSheet, scale: int) {
    0 < scale && scale * sheet.width <= 65536 && scale * sheet.height <= 65536
  }

  lemma CellFits(sheet: SpriteSheet, scale: int, cell: Point)
    requires Fits(sheet, scale) && 0 <= cell.x < sheet.width && 0 <= cell.y < sheet.height
    ensures scale * cell.x + scale <= 65536 && scale * cell.y + scale <= 65536
  {
    MulMono(cell.x + 1, sheet.width, scale);
    MulMono(cell.y + 1, sheet.height, scale);
  }

  lemma ReachesOnce(x: int, scale: int, c: nat, u: int)
    requires 0 < scale && scale * c + scale <= 65536
    ensures Reaches(x + scale * c, scale, u) <==> ToU16(u - x) / scale == c
  {
    QuotientMeans(ToU16(u - x), c, scale);
    MulMono(0, c, scale);
    ReachesNear(x, scale * c, scale, u);
    hide ToU16, Reaches;
  }

  lemma ReachesNear(x: int, offset: nat, scale: int, u: int)
    requires offset + scale <= 65536
    ensures Reaches(x + offset, scale, u) <==> offset <= ToU16(u - x) < offset + scale
  {
    var d := ToU16(u - x);
    assert ToU16(u - (x + offset)) == ToU16(d - offset);
  }

  lemma {:induction false} LastInkIsOnly(sheet: SpriteSheet, p: Point, x: int, y: int, scale: int,
                                         currentX: nat, currentY: nat)
    requires sheet.Valid() && Fits(sheet, scale) && currentX <= sheet.width && currentY <= sheet.height
    ensures var cell := CellAt(p, x, y, scale);
            LastInk(sheet, p, x, y, scale, currentX, currentY) ==
            if Passed(cell, currentX, currentY) then Ink(sheet, cell) else None
    decreases currentX, currentY
  {
    hide ToU16, Reaches;
    if currentX == 0 && currentY == 0 {
    } else if currentY == 0 {
      LastInkIsOnly(sheet, p, x, y, scale, currentX - 1, sheet.height);
    } else {
      LastInkIsOnly(sheet, p, x, y, scale, currentX, currentY - 1);
      if currentX < sheet.width {
        CellFits(sheet, scale, Point(currentX, currentY - 1));
        ReachesOnce(x, scale, currentX, p.x);
        ReachesOnce(y, scale, currentY - 1, p.y);
      }
    }
  }

  /** Magnified and transparent: if the scaled box fits, each pixel takes the colour of its
      cell, the offset divided by the scale, unless that is transparent. */
  lemma StampedIsMagnified(pic: Picture, sheet: SpriteSheet, x: int, y: int, scale: int)
    requires sheet.Valid() && Fits(sheet, scale)
    ensures Stamped(pic, sheet, x, y, scale)
         == map p | p in pic :: Ink(sheet, CellAt(p, x, y, scale)).GetOr(pic[p])
  {
    hide LastInk, ToU16;
    forall p | p in pic
      ensures LastInk(sheet, p, x, y, scale, sheet.width, 0).GetOr(pic[p])
           == Ink(sheet, CellAt(p, x, y, scale)).GetOr(pic[p])
    {
      LastInkIsOnly(sheet, p, x, y, scale, sheet.width, 0);
    }
    hide Ink, CellAt;
  }

  /** The same from the bytes of the sheet: inside the scaled box, the colour that the current
      sprite's rows have at the offset divided by the scale, unless it is the transparent one. */
  lemma SpritePixels(pic: Picture, sheet: SpriteSheet, x: int, y: int, scale: int, p: Point)
    requires sheet.Valid() && Fits(sheet, scale) && p in pic
    ensures var column, row := ToU16(p.x - x) / scale, ToU16(p.y - y) / scale;
            var color := At(sheet.data, (sheet.currentIndex * sheet.height + row) * sheet.width + column);
            Stamped(pic, sheet, x, y, scale)[p] ==
            if column < sheet.width && row < sheet.height && color != sheet.transparentColor then color else pic[p]
  {
    hide Stamped, ToU16, Ink, Fits;
    FitsScale(sheet, scale);
    StampedIsMagnified(pic, sheet, x, y, scale);
    CellIsNatural(p, x, y, scale);
    InkFromBytes(sheet, CellAt(p, x, y, scale));
  }

  lemma FitsScale(sheet: SpriteSheet, scale: int)
    requires Fits(sheet, scale)
    ensures 0 < scale
  {
  }

  lemma InkFromBytes(sheet: SpriteSheet, cell: Point)
    requires sheet.Valid() && 0 <= cell.x && 0 <= cell.y
    ensures var color := At(sheet.data, (sheet.currentIndex * sheet.height + cell.y) * sheet.width + cell.x);
            Ink(sheet, cell) ==
            if cell.x < sheet.width && cell.y < sheet.height && color != sheet.transparentColor then Some(color)
            else None
  {
    if cell.x < sheet.width && cell.y < sheet.height {
      IndexInRange(cell.y, sheet.currentIndex, sheet.height, sheet.count);
      IndexInRange(cell.x, sheet.currentIndex * sheet.height + cell.y, sheet.width, sheet.count * sheet.height);
    }
  }

  lemma CellIsNatural(p: Point, x: int, y: int, scale: int)
    requires 0 < scale
    ensures 0 <= CellAt(p, x, y, scale).x && 0 <= CellAt(p, x, y, scale).y
  {
  }
}
