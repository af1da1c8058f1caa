/** Pixel memory as FramebufferReader and FramebufferWriter see it: a row-major
    array of 16-bit colours, addressed with 16-bit coordinates. */
module Framebuffers {

  type U16 = i: int | 0 <= i < 65536
  type Color = U16

  const MAX_INT := 0x7fff_ffff

  datatype Option<+T> = None | Some(value: T) {
    function GetOr(default: T): T {
      match this
      case Some(v) => v
      case None => default
    }
  }

  datatype Point = Point(x: int, y: int)

  /** What can be seen of a framebuffer: the colour at each point inside it. */
  type Picture = map<Point, Color>

  function Abs(i: int): nat {
    if i < 0 then -i else i
  }

  function Max(a: int, b: int): int {
    if a < b then b else a
  }

  /** One king's move apart. */
  predicate Adjacent(p: Point, q: Point) {
    p != q && -1 <= q.x - p.x <= 1 && -1 <= q.y - p.y <= 1
  }

  /** The implicit conversion of an int argument to a uint16_t parameter. */
  function ToU16(i: int): U16 {
    i % 65536
  }

  function WrapPoint(p: Point): Point {
    Point(ToU16(p.x), ToU16(p.y))
  }

  /** Every point of the picture has uint16_t coordinates. */
  ghost predicate Addressable(pic: Picture) {
    forall p | p in pic :: 0 <= p.x < 65536 && 0 <= p.y < 65536
  }

  /** The points of a picture that has the given size. */
  ghost function Area(width: int, height: int): set<Point> {
    set x, y | 0 <= x < width && 0 <= y < height :: Point(x, y)
  }

  /** A column-by-column walk over a picture has passed `p` on reaching row `y` of column `x`. */
  predicate Passed(p: Point, x: int, y: int) {
    p.x < x || (p.x == x && p.y < y)
  }

  /** Colour the points of `pts` that the picture has; leave all others alone. */
  ghost function Plot(pic: Picture, pts: set<Point>, c: Color): Picture {
    map p | p in pic :: if p in pts then c else pic[p]
  }

  /** One call of SetPixel with int arguments. */
  ghost function PlotPoint(pic: Picture, p: Point, c: Color): Picture {
    Plot(pic, {WrapPoint(p)}, c)
  }

  /** Such calls for a list of points, in order. */
  ghost function PlotAll(pic: Picture, pts: seq<Point>, c: Color): Picture
    decreases |pts|
  {
    if pts == [] then pic else PlotAll(PlotPoint(pic, pts[0], c), pts[1..], c)
  }

  lemma PlotAllCons(pic: Picture, p: Point, rest: seq<Point>, c: Color)
    ensures PlotAll(pic, [p] + rest, c) == PlotAll(PlotPoint(pic, p, c), rest, c)
  {
    assert ([p] + rest)[1..] == rest;
  }

  lemma {:induction false} PlotAllConcat(pic: Picture, a: seq<Point>, b: seq<Point>, c: Color)
    ensures PlotAll(pic, a + b, c) == PlotAll(PlotAll(pic, a, c), b, c)
    decreases |a|
  {
    if a == [] {
      assert a + b == b;
    } else {
      assert a + b == [a[0]] + (a[1..] + b);
      PlotAllCons(pic, a[0], a[1..] + b, c);
      PlotAllConcat(PlotPoint(pic, a[0], c), a[1..], b, c);
    }
  }

  /** What a list of drawn points does to one pixel: it matters only whether some
      point of the list has that pixel as its uint16_t coordinates. */
  lemma {:induction false} PlotAllMeaning(pic: Picture, pts: seq<Point>, c: Color, p: Point)
    requires p in pic
    ensures p in PlotAll(pic, pts, c)
    ensures (exists q :: q in pts && WrapPoint(q) == p) ==> PlotAll(pic, pts, c)[p] == c
    ensures (forall q :: q in pts ==> WrapPoint(q) != p) ==> PlotAll(pic, pts, c)[p] == pic[p]
    decreases |pts|
  {
    if pts == [] {
    } else {
      var first, rest := pts[0], pts[1..];
      PlotAllMeaning(PlotPoint(pic, first, c), rest, c, p);
      assert forall q :: q in pts <==> q == first || q in rest;
    }
  }

  lemma Regroup<T>(a: seq<T>, b: seq<T>, c: seq<T>)
    ensures (a + b) + c == a + (b + c)
  {
  }

  lemma MulMono(a: int, b: int, c: nat)
    ensures a <= b ==> a * c <= b * c
  {
  }

  lemma IndexInRange(x: int, y: int, width: int, height: int)
    requires 0 <= x < width && 0 <= y < height
    ensures 0 <= y * width + x < width * height
  {
    MulMono(0, y, width);
    MulMono(y + 1, height, width);
  }

  lemma RowOfIndex(x: int, y: int, width: int)
    requires 0 <= x < width
    ensures (y * width + x) / width == y
    ensures (y * width + x) % width == x
  {
    var q, r := (y * width + x) / width, (y * width + x) % width;
    assert (q - y) * width == x - r;
    MulMono(1, q - y, width);
    MulMono(q - y, -1, width);
  }

  lemma AddKeepsRemainder(a: nat, n: nat)
    requires 0 < n
    ensures (a + n) % n == a % n
  {
    var q, r := a / n, a % n;
    assert a + n == (q + 1) * n + r;
    RowOfIndex(r, q + 1, n);
  }

  /** Rows of less than 65536 bytes keep every pixel's index an int. */
  lemma RowBytesBoundTheArea(width: U16, height: U16, rowBytes: U16)
    requires 2 * width <= rowBytes
    ensures width * height <= MAX_INT
  {
    MulMono(width, 32767, height);
  }

  /** Shifting by an offset in uint16_t arithmetic is undone by subtracting it. */
  lemma WrapShift(x: U16, i: U16, u: U16)
    ensures ToU16(x + i) == u <==> ToU16(u - x) == i
  {
  }

  lemma QuotientMeans(d: nat, cell: nat, scale: nat)
    requires 0 < scale
    ensures d / scale == cell <==> scale * cell <= d < scale * cell + scale
  {
    assert d == (d / scale) * scale + d % scale;
    MulMono(d / scale + 1, cell, scale);
    MulMono(cell + 1, d / scale, scale);
    assert (d / scale + 1) * scale == (d / scale) * scale + scale;
    assert (cell + 1) * scale == cell * scale + scale;
  }

  lemma QuotientAtLeast(d: nat, n: nat, size: nat)
    requires 0 < size && n * size <= d
    ensures n <= d / size
  {
    MulMono(d / size + 1, n, size);
    assert (d / size + 1) * size == (d / size) * size + size;
    assert d == (d / size) * size + d % size;
  }

  lemma Alias(u: U16, x: int, i: int)
    ensures 0 <= i < 65536 ==> (ToU16(x + i) == u <==> i == ToU16(u - x))
  {
  }

  /** The source point that a copy to offset (x, y) puts at `p`. */
  function Origin(p: Point, x: U16, y: U16): Point {
    Point(ToU16(p.x - x), ToU16(p.y - y))
  }

  /** The destination point where a copy to offset (x, y) puts `q`. */
  function Shifted(q: Point, x: U16, y: U16): Point {
    Point(ToU16(x + q.x), ToU16(y + q.y))
  }

  lemma OriginUndoesShift(p: Point, q: Point, x: U16, y: U16)
    requires 0 <= q.x < 65536 && 0 <= q.y < 65536 && 0 <= p.x < 65536 && 0 <= p.y < 65536
    ensures Origin(p, x, y) == q <==> p == Shifted(q, x, y)
  {
    WrapShift(x, q.x, p.x);
    WrapShift(y, q.y, p.y);
  }

  /** What the destination must show after a copy to offset (x, y): the source
      colour wherever going back by the offset, modulo 2^16, hits the source. */
  ghost function Blitted(dst: Picture, src: Picture, x: U16, y: U16): Picture {
    map p | p in dst ::
      var q := Origin(p, x, y);
      if q in src then src[q] else dst[p]
  }

  /** A source pixel goes to its own coordinates plus the offset, in 16 bits, if the destination
      has that point; a destination pixel to which none goes stays. */
  lemma BlittedMeaning(dst: Picture, src: Picture, x: U16, y: U16, p: Point)
    requires p in dst && Addressable(dst) && Addressable(src)
    ensures forall q :: q in src && p.x == (x + q.x) % 65536 && p.y == (y + q.y) % 65536 ==>
              Blitted(dst, src, x, y)[p] == src[q]
    ensures (forall q :: q in src ==> p.x != (x + q.x) % 65536 || p.y != (y + q.y) % 65536) ==>
              Blitted(dst, src, x, y)[p] == dst[p]
  {
    forall q | q in src
      ensures Origin(p, x, y) == q <==> p.x == (x + q.x) % 65536 && p.y == (y + q.y) % 65536
    {
      OriginUndoesShift(p, q, x, y);
    }
    hide Origin;
  }

  /** The same part-way through: only source points passed by the walk are copied. */
  ghost function BlittedTo(dst: Picture, src: Picture, x: U16, y: U16, currentX: int, currentY: int): Picture {
    map p | p in dst ::
      var q := Origin(p, x, y);
      if q in src && Passed(q, currentX, currentY) then src[q] else dst[p]
  }

  lemma BlitStart(dst: Picture, src: Picture, x: U16, y: U16)
    ensures BlittedTo(dst, src, x, y, 0, 0) == dst
  {
  }

  lemma BlitNextColumn(dst: Picture, src: Picture, x: U16, y: U16, width: int, height: int, currentX: int)
    requires src.Keys == Area(width, height)
    ensures BlittedTo(dst, src, x, y, currentX, height) == BlittedTo(dst, src, x, y, currentX + 1, 0)
  {
  }

  lemma BlitEnd(dst: Picture, src: Picture, x: U16, y: U16, width: int, height: int)
    requires src.Keys == Area(width, height)
    ensures BlittedTo(dst, src, x, y, width, 0) == Blitted(dst, src, x, y)
  {
  }

  /** The picture after one more source pixel `q` has been handled. */
  ghost function AfterPixel(pic: Picture, src: Picture, x: U16, y: U16, q: Point): Picture {
    if q in src then Plot(pic, {Shifted(q, x, y)}, src[q]) else pic
  }

  lemma BlitOnePixel(dst: Picture, src: Picture, x: U16, y: U16, q: Point)
    requires 0 <= q.x < 65536 && 0 <= q.y < 65536
    requires Addressable(dst)
    ensures AfterPixel(BlittedTo(dst, src, x, y, q.x, q.y), src, x, y, q)
         == BlittedTo(dst, src, x, y, q.x, q.y + 1)
  {
    var now := AfterPixel(BlittedTo(dst, src, x, y, q.x, q.y), src, x, y, q);
    forall p | p in dst
      ensures now[p] == BlittedTo(dst, src, x, y, q.x, q.y + 1)[p]
    {
      OriginUndoesShift(p, q, x, y);
      assert Passed(Origin(p, x, y), q.x, q.y + 1) <==>
             Origin(p, x, y) == q || Passed(Origin(p, x, y), q.x, q.y);
    }
  }

  /** For a framebuffer copied onto itself: the offsets for which nothing is overwritten unread. */
  predicate ReadsFirst(width: int, height: int, x: U16, y: U16) {
    if x == 0 then y == 0 || height <= y else width <= x || height <= y <= 65536 - height
  }

  lemma UnreadIsUnwritten(src: Picture, width: U16, height: U16, x: U16, y: U16, q: Point)
    requires src.Keys == Area(width, height) && ReadsFirst(width, height, x, y) && q in src
    ensures BlittedTo(src, src, x, y, q.x, q.y)[q] == src[q]
  {
    OriginIsNotPassed(width, height, x, y, q);
    hide ReadsFirst, Origin, Passed;
  }

  lemma OriginIsNotPassed(width: U16, height: U16, x: U16, y: U16, q: Point)
    requires ReadsFirst(width, height, x, y) && 0 <= q.x < width && 0 <= q.y < height
    ensures var o := Origin(q, x, y); o.x < width && o.y < height ==> !Passed(o, q.x, q.y)
  {
  }

  /** Those are all such offsets. */
  lemma ReadsFirstMeaning(width: U16, height: U16, x: U16, y: U16)
    requires 0 < width && 0 < height
    ensures ReadsFirst(width, height, x, y) <==>
            forall q :: q in Area(width, height) && Shifted(q, x, y) in Area(width, height) ==>
              !Passed(q, Shifted(q, x, y).x, Shifted(q, x, y).y)
  {
    if !ReadsFirst(width, height, x, y) {
      var q := Point(0, if y < height then 0 else 65536 - y);
      assert q in Area(width, height) && Shifted(q, x, y) in Area(width, height);
    }
  }

  /** For a source that lies in the destination's own memory: the index whose old pixel index
      `i` holds when the walk over the source has reached row `currentY` of column `currentX`. */
  function IndexShown(width: U16, height: U16, fromWidth: U16, fromHeight: U16, x: U16, y: U16,
                      currentX: nat, currentY: nat, i: int): int
    decreases currentX, currentY
  {
    if 0 < currentY then
      var q := Point(currentX, currentY - 1);
      var t := Shifted(q, x, y);
      if t.x < width && t.y < height && i == t.y * width + t.x then
        IndexShown(width, height, fromWidth, fromHeight, x, y, currentX, currentY - 1, q.y * fromWidth + q.x)
      else IndexShown(width, height, fromWidth, fromHeight, x, y, currentX, currentY - 1, i)
    else if 0 < currentX then IndexShown(width, height, fromWidth, fromHeight, x, y, currentX - 1, fromHeight, i)
    else i
  }

  function At(memory: seq<Color>, i: int): Color {
    if 0 <= i < |memory| then memory[i] else 0
  }

  /** What SetPixel does to the memory that it writes to. */
  function Stored(memory: seq<Color>, width: U16, height: U16, x: U16, y: U16, c: Color): seq<Color>
    requires width * height <= |memory|
  {
    if x < width && y < height then
      IndexInRange(x, y, width, height);
      memory[y * width + x := c]
    else memory
  }

  /** The memory when the walk over a source that lies in it has reached row `currentY` of
      column `currentX`. */
  function SharedTo(memory: seq<Color>, width: U16, height: U16, fromWidth: U16, fromHeight: U16, x: U16, y: U16,
                    currentX: nat, currentY: nat): seq<Color>
  {
    seq(|memory|, i requires 0 <= i < |memory| =>
      At(memory, IndexShown(width, height, fromWidth, fromHeight, x, y, currentX, currentY, i)))
  }

  lemma SharedStart(memory: seq<Color>, width: U16, height: U16, fromWidth: U16, fromHeight: U16, x: U16, y: U16)
    ensures SharedTo(memory, width, height, fromWidth, fromHeight, x, y, 0, 0) == memory
  {
  }

  lemma IndexShownUnfolds(width: U16, height: U16, fromWidth: U16, fromHeight: U16, x: U16, y: U16,
                          currentX: nat, currentY: nat, i: int)
    ensures IndexShown(width, height, fromWidth, fromHeight, x, y, currentX, currentY + 1, i) ==
            var toX, toY := ToU16(x + currentX), ToU16(y + currentY);
            var from := if toX < width && toY < height && i == toY * width + toX
                        then currentY * fromWidth + currentX else i;
            IndexShown(width, height, fromWidth, fromHeight, x, y, currentX, currentY, from)
  {
  }

  lemma SharedOnePixel(memory: seq<Color>, width: U16, height: U16, fromWidth: U16, fromHeight: U16, x: U16, y: U16,
                       currentX: nat, currentY: nat, was: seq<Color>)
    requires width * height <= |memory| && fromWidth * fromHeight <= |memory|
    requires currentX < fromWidth && currentY < fromHeight
    requires was == SharedTo(memory, width, height, fromWidth, fromHeight, x, y, currentX, currentY)
    ensures Stored(was, width, height, ToU16(x + currentX), ToU16(y + currentY),
                   At(was, currentY * fromWidth + currentX))
         == SharedTo(memory, width, height, fromWidth, fromHeight, x, y, currentX, currentY + 1)
  {
    hide ToU16, IndexShown;
    IndexInRange(currentX, currentY, fromWidth, fromHeight);
    var toX, toY, from := ToU16(x + currentX), ToU16(y + currentY), currentY * fromWidth + currentX;
    var now := Stored(was, width, height, toX, toY, At(was, from));
    var goal := SharedTo(memory, width, height, fromWidth, fromHeight, x, y, currentX, currentY + 1);
    if toX < width && toY < height {
      IndexInRange(toX, toY, width, height);
    }
    forall i | 0 <= i < |memory|
      ensures now[i] == goal[i]
    {
      IndexShownUnfolds(width, height, fromWidth, fromHeight, x, y, currentX, currentY, i);
    }
  }

  lemma SharedNextColumn(memory: seq<Color>, width: U16, height: U16, fromWidth: U16, fromHeight: U16,
                         x: U16, y: U16, currentX: nat)
    ensures SharedTo(memory, width, height, fromWidth, fromHeight, x, y, currentX, fromHeight)
         == SharedTo(memory, width, height, fromWidth, fromHeight, x, y, currentX + 1, 0)
  {
  }

  class Framebuffer {
    const width: U16
    const height: U16
    const data: array<Color>

    constructor (width: U16, height: U16, data: array<Color>)
      ensures this.width == width && this.height == height && this.data == data
    {
      this.width, this.height, this.data := width, height, data;
    }

    /** The pixels exist, and every pixel's index is an int. */
    ghost predicate Valid() {
      width * height <= data.Length && width * height <= MAX_INT
    }

    ghost function Picture(): (pic: Picture)
      requires Valid()
      reads data
      ensures pic.Keys == Area(width, height) && Addressable(pic)
    {
      map p | p in Area(width, height) :: IndexInRange(p.x, p.y, width, height); data[p.y * width + p.x]
    }

    /** Writes one pixel; coordinates outside the framebuffer are ignored. */
    method SetPixel(x: U16, y: U16, c: Color)
      requires Valid()
      modifies data
      ensures Picture() == Plot(old(Picture()), {Point(x, y)}, c)
      ensures data[..] == Stored(old(data[..]), width, height, x, y, c)
    {
      if x >= width || y >= height {
        return;
      }
      IndexInRange(x, y, width, height);
      data[y * width + x] := c;
      forall p | p in Area(width, height) && p != Point(x, y)
        ensures Picture()[p] == old(Picture())[p]
      {
        RowOfIndex(x, y, width);
        RowOfIndex(p.x, p.y, width);
      }
    }

    /** SetPixel called with int arguments, which the call converts to uint16_t. */
    method SetPixelAt(x: int, y: int, c: Color)
      requires Valid()
      modifies data
      ensures Picture() == PlotPoint(old(Picture()), Point(x, y), c)
    {
      SetPixel(ToU16(x), ToU16(y), c);
    }

    method GetPixel(x: U16, y: U16) returns (r: Option<Color>)
      requires Valid()
      ensures x < width && y < height ==> r == Some(At(data[..], y * width + x))
      ensures r == if Point(x, y) in Picture() then Some(Picture()[Point(x, y)]) else None
    {
      if x >= width || y >= height {
        return None;
      }
      IndexInRange(x, y, width, height);
      r := Some(data[y * width + x]);
    }

    method Fill(c: Color)
      requires Valid()
      modifies data
      ensures Picture() == map p | p in old(Picture()) :: c
    {
      for i := 0 to width * height
        invariant forall k :: 0 <= k < i ==> data[k] == c
      {
        data[i] := c;
      }
      forall p | p in Picture()
        ensures Picture()[p] == c
      {
        IndexInRange(p.x, p.y, width, height);
      }
    }

    /** One step of Blit: read a source pixel and, if it exists, write it. */
    method BlitPixel(fb: Framebuffer, x: U16, y: U16, currentX: U16, currentY: U16)
      requires Valid() && fb.Valid()
      modifies data
      ensures Picture() == AfterPixel(old(Picture()), old(fb.Picture()), x, y, Point(currentX, currentY))
      ensures currentX < fb.width && currentY < fb.height ==>
                data[..] == Stored(old(data[..]), width, height, ToU16(x + currentX), ToU16(y + currentY),
                                   At(old(fb.data[..]), currentY * fb.width + currentX))
    {
      var pixel := fb.GetPixel(currentX, currentY);
      if pixel.Some? {
        SetPixel(ToU16(x + currentX), ToU16(y + currentY), pixel.value);
      }
    }

    /** The source is other memory, or this framebuffer and read before it is overwritten. */
    ghost predicate CopiesCleanly(fb: Framebuffer, x: U16, y: U16) {
      fb.data != data || (fb.width == width && fb.height == height && ReadsFirst(width, height, x, y))
    }

    /** The source as it is part-way through, where it has yet to be read. */
    lemma SourceIsUnread(fb: Framebuffer, before: Picture, src: Picture, x: U16, y: U16, q: Point)
      requires Valid() && fb.Valid() && CopiesCleanly(fb, x, y)
      requires if fb.data != data then fb.Picture() == src else before == src
      requires Picture() == BlittedTo(before, src, x, y, q.x, q.y)
      ensures AfterPixel(Picture(), fb.Picture(), x, y, q) == AfterPixel(Picture(), src, x, y, q)
    {
      if fb.data == data && q in src {
        assert fb.Picture()[q] == Picture()[q];
        UnreadIsUnwritten(src, width, height, x, y, q);
      }
    }

    /** Where Blit stands when its walk has reached row `currentY` of column `currentX`. */
    ghost predicate Reached(fb: Framebuffer, before: Picture, src: Picture, memory: seq<Color>, x: U16, y: U16,
                            currentX: nat, currentY: nat)
      requires Valid() && fb.Valid()
      reads data, fb.data
    {
      && (fb.data != data ==> fb.Picture() == src)
      && (CopiesCleanly(fb, x, y) ==> Picture() == BlittedTo(before, src, x, y, currentX, currentY))
      && (fb.data == data ==>
            data[..] == SharedTo(memory, width, height, fb.width, fb.height, x, y, currentX, currentY))
    }

    method BlitStep(fb: Framebuffer, x: U16, y: U16, currentX: U16, currentY: U16,
                    ghost before: Picture, ghost src: Picture, ghost memory: seq<Color>)
      requires Valid() && fb.Valid() && currentX < fb.width && currentY < fb.height
      requires Addressable(before) && |memory| == data.Length
      requires fb.data == data && CopiesCleanly(fb, x, y) ==> before == src
      requires Reached(fb, before, src, memory, x, y, currentX, currentY)
      modifies data
      ensures Reached(fb, before, src, memory, x, y, currentX, currentY + 1)
    {
      hide BlittedTo, SharedTo, Stored, At, ToU16, AfterPixel;
      if CopiesCleanly(fb, x, y) {
        SourceIsUnread(fb, before, src, x, y, Point(currentX, currentY));
        BlitOnePixel(before, src, x, y, Point(currentX, currentY));
      }
      if fb.data == data {
        SharedOnePixel(memory, width, height, fb.width, fb.height, x, y, currentX, currentY, data[..]);
      }
      BlitPixel(fb, x, y, currentX, currentY);
    }

    /** Copies another framebuffer's pixels to (x, y); both offsets and sums are uint16_t. */
    method Blit(fb: Framebuffer, x: U16, y: U16)
      requires Valid() && fb.Valid()
      modifies data
      ensures CopiesCleanly(fb, x, y) ==> Picture() == Blitted(old(Picture()), old(fb.Picture()), x, y)
      ensures fb.data == data ==>
                data[..] == SharedTo(old(data[..]), width, height, fb.width, fb.height, x, y, fb.width, 0)
    {
      ghost var before, src, memory := Picture(), fb.Picture(), data[..];
      hide BlittedTo, Blitted, SharedTo, ReadsFirst;
      assert fb.data == data && CopiesCleanly(fb, x, y) ==> before == src;
      BlitStart(before, src, x, y);
      SharedStart(memory, width, height, fb.width, fb.height, x, y);
      for currentX := 0 to fb.width
        invariant Reached(fb, before, src, memory, x, y, currentX, 0)
      {
        for currentY := 0 to fb.height
          invariant Reached(fb, before, src, memory, x, y, currentX, currentY)
        {
          BlitStep(fb, x, y, currentX, currentY, before, src, memory);
        }
        BlitNextColumn(before, src, x, y, fb.width, fb.height, currentX);
        SharedNextColumn(memory, width, height, fb.width, fb.height, x, y, currentX);
      }
      BlitEnd(before, src, x, y, fb.width, fb.height);
    }
  }
}
