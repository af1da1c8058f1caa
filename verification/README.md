# Framebuffers on their way to a panel

Models and proofs for the display stack of an embedded graphics repository: drawing into a
16-bit-per-pixel framebuffer, handing the framebuffer from application to display driver, and
moving its pixels out through a display controller. Verify everything with
`dafny verify dfyconfig.toml`.

| file | what it models |
|---|---|
| `Framebuffer.dfy` | pixel memory; reading, writing, filling and copying with 16-bit coordinates |
| `Line.dfy`, `Circle.dfy` | the two incremental rasterisers and the closed forms hidden in their error terms |
| `LineLimits.dfy`, `CircleExact.dfy` | exactly which lines survive the 16-bit temporaries; exactly which pixels lines and circles are |
| `Sprite.dfy` | horizontal lines, rectangles, scaled transparent sprites |
| `TextArea.dfy` | bitmap glyphs and a wrapping, scrolling terminal that exists only as pixels |
| `TextLines.dfy` | what the terminal shows, from the paragraphs of its text and the bytes of its font |
| `TextBuffer.dfy` | the terminal demo's scrolling character grid |
| `Resize.dfy` | nearest-neighbour resize through an 80-pixel buffer |
| `Dsi.dfy` | a memory write cut into DSI packets, continued from completion interrupts |
| `Pool.dfy`, `Pusher.dfy`, `Handoff.dfy` | the round-robin framebuffer pool, the RP2040 pixel pusher, and the application thread and interrupts around them |
| `Pio.dfy` | the PIO program that doubles pixels, interpreted from its instruction words |
| `Doubling.dfy`, `Scanout.dfy` | the words fetched for a frame against the picture at twice the size, and DMA, interrupts and PIO together, frame after frame |
| `Pipeline.dfy` | all of it from drawing to the panel: the application draws on while DMA, interrupts and PIO send what it released |

## How the models are built

What the C++ code changes in place is a class or an array here, and each such method is proved
equal to a function on values (`Pusher.OnIrq`, `Dsi.SendChunk`, `TextAreas.Typed`, ...). The
properties are lemmas about those functions. A framebuffer's observable content is a map from
points to colours (`Framebuffers.Picture`); drawing functions are described by the list of points
they set, or by the colour each point ends with. Conversions to `uint16_t` and `int16_t` are
written out (`ToU16`, `ToI16`); `int` is unbounded, and where that matters the bounds are proved
(`CircleRaster.ErrorStaysSmall`, `LineRaster.NextWithoutOverflow`) or required (`Resize.Defined`, and
`Framebuffer.Valid`, which `Framebuffers.RowBytesBoundTheArea` derives from the 16-bit row size).

Concurrency is a state machine whose steps may come in any order. `Scanout` interleaves the DMA
channel, the processor's interrupt handler and the PIO state machine; `Handoff` interleaves the
application thread, stopped between any two of its assignments, with DMA transfers and interrupts.
The handler itself is one step. A blocking call is a step that is possible only once it would not
block. Steps that are not possible when their turn comes are passed over, so a theorem about all
lists of steps is a theorem about all schedules. `Scanout` takes the pixels to stay as they are while
a frame is scanned out; `Pipeline` joins it to `Handoff`, lets the application draw on every buffer
it holds at any time, and proves that they do.

The PIO semantics are those of section 3.4 of the RP2040 datasheet, for the instruction forms the
program uses, without timing: the panel samples the data pin whenever the side-set clock rises.

## Findings

* The pixel-doubled stream is the doubled picture exactly for even widths below 32768 and heights
  below 32768 (`Doubling.FrameIsDoubledExactly`, and for any number of frames one after another
  `Scanout.PanelShowsAllPictures`). An odd width loses words to `fb_width / 4`; the larger sizes wrap
  in the handler's `uint16_t` arithmetic.
* `DrawLine` keeps differences and swapped endpoints in `int16_t`. For endpoints at most 65535 apart
  it draws the line between them if and only if `LineLimits.Survives` (`LineLimits.LineIsCorrectExactly`):
  the swap does not change the longer span, nor which end is smaller along the shorter one, and the
  span is at most 32767, or 65535 for a line parallel to an axis. `LineLimits.FarLines` has a line of
  40000 pixels that goes wrong and a short one at x = 40000 that is not drawn at all.
* A display with one row or one column makes the resize divide by zero (pw_graphics/pw_display/display.cc:59, 65);
  `Resize.Defined` requires that it has none such.
* `WriteFramebuffer` triggers the first transfer without looking at the height, so a framebuffer of
  height 0 still has one row read from it (`Scanout.FirstReadIsInside`, `Doubling.EmptyFrame`).
* With heights of 32768 or more, `DmaIsBusy` compares an unwrapped height with a scanline number
  that stopped at a wrapped one, so the second release waits for ever
  (`Handoff.WedgedExactlyWhenTooTall`, `Handoff.WedgedForever`). A framebuffer of 2 by 32768 pixels,
  128 KB, gets there from the initial state (`Handoff.TooTallWedges`).
* The pool's comment says that a returned buffer becomes available for the next get. It is the
  round-robin index, not the returned buffer, that decides: a client never sees a buffer out twice
  exactly if each get comes after the return of the buffer of the get one round before
  (`Pool.SafeExactlyWhenReturnedInTime`; with the driver around it, `Handoff.HandoffIsSafe`). Clients
  that return in order always meet this. Two runs that do not are `Pool.OutOfOrderHandsOutABusyBuffer`
  and, where a spare buffer only delays the conflict, `Pool.SpareBufferOnlyDelaysIt`.
* A DSI write of odd length sends the byte after its input in place of its last byte
  (`Dsi.OddWriteReadsPastItsInput`).
* The comment on `TextBuffer` speaks of inserting characters right to left; the code, and the model,
  insert left to right.

## Model

| member | source | states |
|---|---|---|
| Framebuffers.Framebuffer.SetPixel | pw_graphics/pw_framebuffer/writer.cc:27-36 | exactly the addressed pixel changes, and nothing does if the coordinates are outside |
| Framebuffers.Framebuffer.GetPixel | pw_graphics/pw_framebuffer/reader.cc:27-35 | the pixel's colour, or out of range |
| Framebuffers.Framebuffer.Fill | pw_graphics/pw_framebuffer/writer.cc:51-58 | every pixel of the framebuffer has the colour |
| Framebuffers.Framebuffer.Blit | pw_graphics/pw_framebuffer/writer.cc:38-49 | each destination pixel is the source pixel that lies the offset back modulo 2^16, if there is one, and is otherwise unchanged; also for a framebuffer copied onto itself, if the offset overwrites nothing unread; and for any source in the same memory, of any size, where each pixel of it ends up |
| Framebuffers.BlittedMeaning | pw_graphics/pw_framebuffer/writer.cc:38-49 | a source pixel goes to its coordinates plus the offset in 16 bits, and a pixel to which none goes stays |
| Framebuffers.SharedOnePixel | pw_graphics/pw_framebuffer/writer.cc:41-48 | copying one pixel within one memory is one step of the map from new to old indices |
| Framebuffers.ReadsFirstMeaning | pw_graphics/pw_framebuffer/writer.cc:41-48 | the offsets at which a framebuffer can be copied onto itself are exactly those at which no pixel is overwritten before it is read |
| Framebuffers.BlitOnePixel | pw_graphics/pw_framebuffer/writer.cc:41-48 | one copied pixel advances the column-by-column walk by one point, wrap-around included |
| Framebuffers.PlotAllMeaning | pw_graphics/pw_framebuffer/writer.cc:27-36 | after any list of SetPixel calls in one colour, a pixel has that colour if and only if some call's converted coordinates are its own; otherwise it is unchanged |
| LineRaster.DrawLine | pw_graphics/pw_draw/draw.cc:50-91 | the framebuffer is the old one with the line's points set, for all ints, int16 temporaries included |
| LineRaster.TraceIsIdeal | pw_graphics/pw_draw/draw.cc:73-90 | the k-th point set is k major steps and round(k*dy/dx) minor steps from the start |
| LineRaster.NextMinorStep | pw_graphics/pw_draw/draw.cc:85-89 | the sign test on the error term takes a minor step exactly when the rounded ideal line does, and the error stays in [0, dx) |
| LineRaster.NextWithoutOverflow | pw_graphics/pw_draw/draw.cc:73-89 | no int16 conversion in an iteration changes a value |
| LineRaster.LineIsCorrect | pw_graphics/pw_draw/draw.cc:50-91 | max(dx, dy) + 1 points, 8-connected, from one endpoint to the other, one per major step, each within half a pixel of the straight line |
| LineRaster.LineIsSymmetric | pw_graphics/pw_draw/draw.cc:53-71 | both directions draw the same points |
| LineLimits.LineIsCorrectExactly | pw_graphics/pw_draw/draw.cc:50-91 | for endpoints at most 65535 apart, the points are a line between them, as far as a framebuffer can tell, if and only if the 16-bit temporaries keep its span and direction |
| LineLimits.PixelsOfLine | pw_graphics/pw_draw/draw.cc:50-91 | each pixel of such a line: one per major step, the nearest to the straight line, and on a tie the one fewer steps from the end with the smaller major coordinate |
| LineLimits.NearestIsUnique | pw_graphics/pw_draw/draw.cc:85-89 | that leaves exactly one pixel for each major step |
| LineLimits.FarLines | pw_graphics/pw_draw/draw.cc:53-76 | a long line drawn wrong, and a short one that depends on its direction |
| CircleRaster.DrawCircle | pw_graphics/pw_draw/draw.cc:95-133 | terminates for every radius, with the framebuffer changed by the circle's points only |
| CirclePixels.CirclePaintsExactly | pw_graphics/pw_draw/draw.cc:95-133 | a pixel has the pen colour if and only if a point that converts to it passes a test on its offset from the centre, and is unchanged otherwise; nothing for radii below 1 |
| CirclePixels.OutlineExactly | pw_graphics/pw_draw/draw.cc:101-132 | an outline is exactly the offsets with -m <= u^2 + v^2 - R^2 <= m - 1, m the larger coordinate, and <= m - 2 on the diagonals |
| CirclePixels.FilledExactly | pw_graphics/pw_draw/draw.cc:101-132 | a filled circle is exactly the offsets that meet the upper bound, and the centre |
| CirclePixels.WalkMissesNone | pw_graphics/pw_draw/draw.cc:123-131 | at each step, of the pixels next to the arc the one that passes that test is taken |
| CircleRaster.NextIsOnCircle | pw_graphics/pw_draw/draw.cc:123-131 | the loop keeps error = (x+1)^2 + (y+1)^2 - R^2 and the accuracy bound, and each iteration moves to one of three neighbours |
| CircleRaster.WalkEndsOnAxis | pw_graphics/pw_draw/draw.cc:105-132 | y never exceeds R, and the loop ends exactly at (0, R) |
| CircleRaster.ErrorStaysSmall | pw_graphics/pw_draw/draw.cc:103-131 | the error term stays within about three radii, so it does not overflow |
| CircleRaster.OutlineIsAccurate | pw_graphics/pw_draw/draw.cc:102-131 | every outline point is within max(\|x\|, \|y\|) of R^2 in squared distance, hence less than a pixel from the circle |
| CircleRaster.FilledCircleCoversDisc | pw_graphics/pw_draw/draw.cc:101-132 | a filled circle draws every offset with u^2 + v^2 <= R^2 - R: no holes |
| CircleRaster.CircleStaysInside | pw_graphics/pw_draw/draw.cc:101-132 | nothing with u^2 + v^2 >= R^2 + R is drawn |
| CircleRaster.DiscIsPainted | pw_graphics/pw_draw/draw.cc:95-133 | on the framebuffer, every pixel of that disc has the pen colour |
| CircleRaster.OutsideIsUntouched | pw_graphics/pw_draw/draw.cc:95-133 | and a pixel all of whose 16-bit aliases are outside is unchanged |
| CircleRaster.OutlineIsClosed | pw_graphics/pw_draw/draw.cc:102-132 | the outline is a closed 8-connected curve |
| CircleRaster.OutlineIsDrawn | pw_graphics/pw_draw/draw.cc:110-122 | the points the loop sets for an outline are exactly the points of that curve |
| CircleRaster.OutlineIsSymmetric | pw_graphics/pw_draw/draw.cc:110-122 | the outline is invariant under a quarter turn |
| Sprites.DrawRect | pw_graphics/pw_draw/draw.cc:143-164 | the framebuffer with the rectangle's points set |
| Sprites.RectMeaning | pw_graphics/pw_draw/draw.cc:135-164 | the points for any corners, and for ordered ones: all between the corners if filled, and otherwise all on the edge |
| Sprites.DrawSprite | pw_graphics/pw_draw/draw.cc:181-207 | for every scale, each pixel has the ink of the last opaque cell drawn over it, and is unchanged if there is none; scales below 1 draw nothing |
| Sprites.LastCellMeaning | pw_graphics/pw_draw/draw.cc:189-205 | that cell is opaque, covers the pixel modulo 2^16, and every other such cell comes before it in the column-by-column order |
| Sprites.StampedIsMagnified | pw_graphics/pw_draw/draw.cc:189-205 | for scaled boxes of at most 65536 pixels, every pixel of the box takes the sheet colour at its offset divided by the scale unless that is transparent; no other pixel changes |
| Sprites.SpritePixels | pw_graphics/pw_draw/draw.cc:181-207 | the same from the bytes of the sheet and its transparent colour |
| Sprites.InkedCell | pw_graphics/pw_draw/draw.cc:193-204 | drawing one cell's block changes exactly the pixels that the block's points convert to |
| Sprites.GetColorIsRowMajor | pw_graphics/pw_draw/sprite_sheet.cc:20-23 | the lookup is row-major inside the sprite's own part of the sheet |
| TextDrawing.GlyphRowIsBinary | pw_graphics/pw_draw/public/pw_draw/font_set.h:20-21 | a glyph row is its byte in binary, leftmost pixel first |
| TextDrawing.DrawCharacter | pw_graphics/pw_draw/draw.cc:222-249 | the character's box and nothing else is painted; the width drawn is returned |
| TextDrawing.CharacterPixels | pw_graphics/pw_draw/draw.cc:222-249 | each pixel of the box is foreground where the glyph's byte has a bit and background elsewhere, all background for a space or null; nothing for characters the font lacks; no other pixel changes |
| TextAreas.ScrollPixels | pw_graphics/pw_draw/text_area.cc:147-172 | for any distance, negative ones included: the in-place copy, row by row and modulo 2^16, and the background below |
| TextAreas.ScrollsUp | pw_graphics/pw_draw/text_area.cc:147-172 | upwards, this moves the whole picture and leaves background below |
| TextAreas.ScrollsDown | pw_graphics/pw_draw/text_area.cc:152-160 | downwards, the copy overtakes itself and repeats the top rows down the framebuffer |
| TextAreas.TextArea.InsertLineBreak | pw_graphics/pw_draw/text_area.cc:65-74 | cursor to the start of the next text line, scrolling if that is below the framebuffer |
| TextAreas.TextArea.DrawCharacter | pw_graphics/pw_draw/text_area.cc:76-103 | newline, unprintable, wrapped and plain characters |
| TextAreas.TextArea.DrawText | pw_graphics/pw_draw/text_area.cc:125-129 | the characters of a string one after another |
| TextAreas.TypedShows | pw_graphics/pw_draw/text_area.cc:60-103 | one character keeps the pixels and the abstract text in step |
| TextAreas.TextAreaShowsTheLastLines | pw_graphics/pw_draw/text_area.cc:60-172 | any text on a cleared framebuffer, from any column and text line where a glyph fits: the pixels are the rendering of the last H/h lines of the lazily wrapped text, no glyph clipped |
| TextLines.TextPixels | pw_graphics/pw_draw/text_area.cc:60-172 | the same for each pixel: foreground exactly if the glyph there, of the last lines of the greedily wrapped paragraphs, has its bit |
| TextLines.LayoutIsGreedy | pw_graphics/pw_draw/text_area.cc:76-103 | typing one character at a time makes the lines of the paragraphs, each as long as can be |
| TextLines.CursorFollowsText | pw_graphics/pw_draw/text_area.cc:60-103 | for any starting cursor and wrap setting: the cursor is at the end of the last line, a line break returns to the starting column, and it never leaves the framebuffer downwards |
| TextAreas.LayoutKeepsEveryCharacter | pw_graphics/pw_draw/text_area.cc:76-103 | wrapping loses and reorders nothing |
| TextBuffers.TextBuffer.DrawCharacter | applications/terminal_display/text_buffer.cc:44-67 | stores at the cursor, breaks lines, ignores what does not fit; the internal assertions hold |
| TextBuffers.TextBuffer.ScrollUp | applications/terminal_display/text_buffer.cc:69-74 | rows move up by one, the last is cleared |
| TextBuffers.TextBuffer.GetChar | applications/terminal_display/text_buffer.cc:36-42 | the cell, or out of range |
| TextBuffers.GridIsTheLastLines | applications/terminal_display/text_buffer.cc:27-74 | after any input the grid is the last nine lines, each cut to 52 characters and padded |
| TextBuffers.NewBufferShows | applications/terminal_display/text_buffer.h:28-79 | a new buffer, cell by cell: lines are cut at newlines only, and shown up to their 52nd character |
| TextBuffers.WrappingBufferShows | applications/terminal_display/text_buffer.cc:44-67 | with wrapping on, paragraphs are cut into pieces of 52 |
| Resize.UpdateNearestNeighbor | pw_graphics/pw_display/display.cc:40-88 | every display pixel is written once, in order, in spans of 80 pixels or to the end of a row, with the colour at the truncated source position, at the framebuffer's stride; after a failed row write, a prefix of that |
| Resize.SourceIndexIsSource | pw_graphics/pw_display/display.cc:59-65 | the index s for dst is the one with s(n-1) <= dst(m-1) < (s+1)(n-1), for m of n rows or columns |
| Resize.DirectIsResized | pw_graphics/pw_display/display.cc:59-78 | the pixel written at each row and column has the source colour that this picks |
| Resize.SourceIndexIsMonotone | pw_graphics/pw_display/display.cc:59-67 | the index map is in range and monotone |
| Resize.SourceIndexFixesEnds | pw_graphics/pw_display/display.cc:59-65 | first to first, last to last, identity at equal sizes |
| Resize.NoSourceIndexIsSkipped | pw_graphics/pw_display/display.cc:59-65 | on a display at least as large, every source row and column is shown |
| Dsi.MCUXpressoDevice.DsiMemWrite | pw_mipi_dsi_mcuxpresso/device.cc:317-368 | rejects a write during another, otherwise sends the first chunk |
| Dsi.MCUXpressoDevice.SendChunck | pw_mipi_dsi_mcuxpresso/device.cc:393-429 | the host is given the next chunk, byte-swapped through the transmit buffer |
| Dsi.MCUXpressoDevice.DsiMemWriteCallback | pw_mipi_dsi_mcuxpresso/device.cc:431-447 | continues the write or ends it with the done-callback |
| Dsi.ChunkKeepsWrite | pw_mipi_dsi_mcuxpresso/device.cc:397-427 | the packets so far are swapped bytes from the start, well cut, with sent + remaining = length, and remaining falls |
| Dsi.EveryRunIsCorrect | pw_mipi_dsi_mcuxpresso/device.cc:317-447 | over any writes, completions and failures: one done-callback per accepted write, in order; a successful write has sent exactly its swapped bytes |
| Dsi.IdleDeviceStartsWrite | pw_mipi_dsi_mcuxpresso/device.cc:346-366 | an idle device starts a write if the host takes the first chunk: one packet, WriteMemoryStart, with the first bytes of the input, pairs exchanged; otherwise it stays idle |
| Dsi.CompletionGoesOnOrEnds | pw_mipi_dsi_mcuxpresso/device.cc:431-447 | a completion sends the next chunk, or ends the write with the status of the transfer, or with failure if the host does not take the chunk |
| Dsi.WriteIsSent | pw_mipi_dsi_mcuxpresso/device.cc:346-447 | a write whose chunks are all taken and completed ends in one success, with every byte sent, pairs exchanged, in the fewest packets |
| Dsi.ChunkLimitIsLargest | pw_mipi_dsi_mcuxpresso/public/pw_mipi_dsi_mcuxpresso/device.h:31-32 | a chunk and its command byte fit one payload, and no larger even chunk does |
| Dsi.RefusedWrite | pw_mipi_dsi_mcuxpresso/device.cc:346-366 | a write during another changes nothing; one whose first chunk is refused leaves nothing behind |
| Dsi.SwapUndoesItself | pw_mipi_dsi_mcuxpresso/device.cc:407-412 | the byte swap is its own inverse |
| Dsi.OddWriteReadsPastItsInput | pw_mipi_dsi_mcuxpresso/device.cc:397-412 | what is sent depends only on the input exactly if the length is even |
| Pool.FramebufferPool.GetFramebuffer | pw_graphics/pw_framebuffer_pool/framebuffer_pool.cc:32-40 | takes a permit and the next index round |
| Pool.SafeExactlyWhenReturnedInTime | pw_graphics/pw_framebuffer_pool/framebuffer_pool.cc:32-45 | for any client and any returns: permits are conserved, and no state has a buffer out twice if and only if every get finds the buffer of the get one round before back |
| Pool.GetIsDistinctExactly | pw_graphics/pw_framebuffer_pool/framebuffer_pool.cc:32-45 | the same for one get, from any state in which the buffers out are among those of the last round |
| Pool.StepKeepsRoundRobin | pw_graphics/pw_framebuffer_pool/framebuffer_pool.cc:32-45 | get number n hands out buffer n modulo the size, also between the steps of a get and whatever is returned |
| Pool.InOrderClientIsSafe | pw_graphics/pw_framebuffer_pool/framebuffer_pool.cc:32-45 | for any run of an in-order client, no buffer is ever out twice, and those that are out are the cyclic interval before the next index |
| Pool.OrderIsNeeded | pw_graphics/pw_framebuffer_pool/framebuffer_pool.cc:32-45 | after gets and returns in order, one return of any buffer and one more get conflict exactly if the return was not the oldest and no buffer was spare |
| Pool.OutOfOrderHandsOutABusyBuffer | pw_graphics/pw_framebuffer_pool/framebuffer_pool.cc:32-45 | a concrete run of two buffers that hands out a busy one |
| Pool.SpareBufferOnlyDelaysIt | pw_graphics/pw_framebuffer_pool/framebuffer_pool.cc:32-45 | a concrete run of three buffers in which the second get after an out-of-order return does |
| Pusher.PixelPusherRp2040Pio.IrqHandler | pw_pixel_pusher_rp2040_pio/pixel_pusher.cc:40-71 | starts the next transfer, or completes the frame with its framebuffer and callback |
| Pusher.PixelPusherRp2040Pio.WriteFramebuffer | pw_pixel_pusher_rp2040_pio/pixel_pusher.cc:189-208 | stores the frame and starts its first transfer |
| Pusher.PixelPusherRp2040Pio.DmaIsBusy | pw_pixel_pusher_rp2040_pio/pixel_pusher.cc:222-228 | busy while scanlines remain or the channel runs |
| Handoff.EventKeepsInvariant | pw_pixel_pusher_rp2040_pio/pixel_pusher.cc:40-71 | every step of the thread or the interrupt keeps the invariant of pool, thread and driver |
| Handoff.EventIsClientStep | pw_graphics/pw_display/display.cc:96-121 | each step of the composition is a step of a pool client, or invisible to the pool, or a reordering of the buffers that are out |
| Handoff.HandoffIsSafe | pw_pixel_pusher_rp2040_pio/pixel_pusher.cc:171-209 | in every interleaving and whichever buffers the thread releases: the callback assertion holds, every frame completes once with its own buffer and callback after the same number of interrupts, permits are conserved; and no buffer is ever in two places, nor the DMA's with anybody else, if and only if every get finds the buffer of one round before back |
| Handoff.OldestFirstIsSafe | pw_pixel_pusher_rp2040_pio/pixel_pusher.cc:171-209 | a thread that releases first what it got first meets that condition in every interleaving |
| Handoff.HandoffNeverDeadlocks | pw_pixel_pusher_rp2040_pio/pixel_pusher.cc:179-187 | in every reachable state something can happen, except for heights of 2^15 and more |
| Handoff.WedgedExactlyWhenTooTall | pw_pixel_pusher_rp2040_pio/pixel_pusher.cc:222-228 | with nothing in flight, the busy-wait never ends exactly if a frame was completed and the height is 2^15 or more |
| Handoff.WedgedForever | pw_pixel_pusher_rp2040_pio/pixel_pusher.cc:179-181 | and then nothing ever ends it |
| Handoff.WaitIsProgress | pw_pixel_pusher_rp2040_pio/pixel_pusher.cc:171-187 | while the thread waits for a frame, everything useful that can happen lowers the number of events left |
| Handoff.WaitIsOver | pw_pixel_pusher_rp2040_pio/pixel_pusher.cc:179-187 | for heights below 2^15 the wait can end exactly when none is left |
| Handoff.BusyWaitEnds | pw_pixel_pusher_rp2040_pio/pixel_pusher.cc:179-187 | no run keeps the thread waiting for more useful events than were left |
| Handoff.TooTallWedges | pw_pixel_pusher_rp2040_pio/pixel_pusher.cc:222-228 | a concrete run from the initial state that ends so |
| Pio.DecodedProgram | pw_pixel_pusher_rp2040_pio/public/pw_pixel_pusher_rp2040_pio/st7789.pio.h:48-68 | what the 17 instruction words say |
| Pio.StepPaysWhatIsOwed | pw_pixel_pusher_rp2040_pio/public/pw_pixel_pusher_rp2040_pio/st7789.pio.h:48-68 | every instruction keeps (bits sampled + bits owed); each pulled word adds its two pixels, each twice; only an empty FIFO stalls |
| Pio.StepDoesWork | pw_pixel_pusher_rp2040_pio/public/pw_pixel_pusher_rp2040_pio/st7789.pio.h:48-68 | each word takes exactly 137 instructions |
| Scanout.HandlerReadsInside | pw_pixel_pusher_rp2040_pio/pixel_pusher.cc:46-69 | every transfer lies inside the framebuffer, and is aligned for even widths |
| Scanout.IrqKeeps | pw_pixel_pusher_rp2040_pio/pixel_pusher.cc:40-71 | an interrupt changes neither the words still to come nor the stream |
| Scanout.ScanoutIsCorrect | pw_pixel_pusher_rp2040_pio/pixel_pusher.cc:40-71 | under every schedule: no read outside a buffer that has rows, the panel sees a prefix of the right stream, one completion, on the last interrupt, and all of the stream once nothing moves, which happens after boundedly many steps |
| Scanout.FirstReadIsInside | pw_pixel_pusher_rp2040_pio/pixel_pusher.cc:189-208 | the first transfer stays inside a framebuffer of just its size exactly if it has rows |
| Doubling.FrameIsDoubledExactly | pw_pixel_pusher_rp2040_pio/pixel_pusher.cc:46-69 | the stream is the picture at twice the size if and only if the width is even and both sizes are below 2^15 (without pixels: if and only if no word is fetched) |
| Scanout.PanelShowsDoubledPicture | pw_pixel_pusher_rp2040_pio/pixel_pusher.cc:194-208 | a frame from a drained machine: H + 1 interrupts, and the panel has the doubled picture exactly under that condition |
| Scanout.FramesFollowEachOther | pw_pixel_pusher_rp2040_pio/pixel_pusher.cc:171-209 | any number of frames, each started when the busy-wait ends and the one before may still be draining: their words reach the panel in order and without loss |
| Scanout.PanelShowsAllPictures | pw_pixel_pusher_rp2040_pio/pixel_pusher.cc:171-209 | and the panel has the doubled pictures one after another if every size allows it, and only if, when all frames have rows or their pixels are contrasting |
| Scanout.SizesDecide | pw_pixel_pusher_rp2040_pio/pixel_pusher.cc:46-69 | for given sizes, the words are the doubled pictures for all pixels if and only if every size allows it |
| Pipeline.PicturesReachThePanel | pw_pixel_pusher_rp2040_pio/pixel_pusher.cc:171-209 | in every interleaving of drawing, hand-off, DMA, interrupts and PIO in which gets come in time: the panel samples the words of each frame's picture as it was when its buffer was released, in order, and all of them by the time the machine is drained |
| Pipeline.PanelHasThePictures | pw_pixel_pusher_rp2040_pio/pixel_pusher.cc:171-209 | and it then has the doubled pictures if and only if the format can be doubled |
| Pipeline.PanelHasWhatWasDrawn | pw_pixel_pusher_rp2040_pio/pixel_pusher.cc:171-209 | the same for the pictures last drawn on each buffer before its release |
| Pipeline.ReleasedIsDrawn | pw_graphics/pw_display/display.cc:96-121 | over any run, what is released is the last picture drawn on the buffer, or what it held before |
| Pipeline.DrawsMeans | pw_graphics/pw_framebuffer/writer.cc:27-36 | drawing sets the pixels of its buffer and of no other |
| Pipeline.HardwareIsWork | pw_pixel_pusher_rp2040_pio/pixel_pusher.cc:40-71 | every transfer, interrupt and PIO instruction leaves less to do |
| Pipeline.EveryRunCanDrain | pw_pixel_pusher_rp2040_pio/pixel_pusher.cc:40-71 | every run in time can be continued by the hardware alone to where the panel has all that was started |
| Pipeline.DrawKeeps | pw_graphics/pw_display/display.cc:96-121 | drawing on a held buffer changes nothing of what is being sent or about to be |
| Pipeline.RunIsHandoffRun | pw_pixel_pusher_rp2040_pio/pixel_pusher.cc:171-209 | the hand-off inside this machine is a run of the hand-off alone, so all its theorems apply |

## Left out

- Handoff.HandoffIsSafe: models Display::ReleaseFramebuffer only on its path to WriteFramebuffer; an invalid framebuffer is returned with an error before anything happens, and the synchronous resize path does not involve the interrupt.
- Handoff.HandoffIsSafe: one application thread, which may release its buffers in any order; two threads inside GetFramebuffer would race on the index.
- Scanout.FramesFollowEachOther: WriteFramebuffer's assignments are one step here, since no interrupt of the channel can fall between them; `Handoff` takes them one by one.
- TextAreas.ScrollsDown: no closed form for distances above 65536 minus the height, where the wrapped row numbers reach the framebuffer again; the row map of `TextAreas.ScrollPixels` covers them.
- LineLimits.LineIsCorrectExactly: endpoints more than 65535 apart, which no 16-bit coordinates are; there a wrapped slope can happen to be the right one.
- Resize.UpdateNearestNeighbor: nothing about displays with one row or one column, for which the source divides by zero.
- Pipeline.PicturesReachThePanel: drawing on a buffer is one step, which replaces all its pixels.
- Scanout.ScanoutIsCorrect: for a framebuffer of height 0 and width above 1 it does not promise that reads stay inside; one row is read.
- Dsi.MCUXpressoDevice.SendChunck: the payload limit of the DSI host, FSL_DSI_TX_MAX_PAYLOAD_BYTE, is a parameter of at least 3; its value is not part of the repository.
- The RGB888 and SmartDMA branches of the DSI write.
- The non-doubled mode of the pixel pusher, whose completion interrupt is disabled, and SetPixelDouble; the PIO program load offset, which relocates jumps and wrap alike.
- Where framebuffers lie in memory: they are taken to be 32-bit aligned, as the DMA channel needs.
- PIO instruction timing and the instruction forms that the program does not use.
- Signed overflow of coordinates in rectangles, sprites and the text area, which C++ leaves undefined; they are unbounded here.
- Sprite index rotation, the overloads that set the cursor first, the font test sheet, DrawString and the test pattern: each only calls the operations above in a fixed order.
- Registers, clocks, SPI and I2C, panel initialisation, the ANSI decoder, TLS, RPC and the other applications.
