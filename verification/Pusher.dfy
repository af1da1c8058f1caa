/** The RP2040 pixel pusher in pixel-double mode: WriteFramebuffer starts a frame, and an
    interrupt handler restarts the DMA channel once per source scanline. */
module Pusher {
  import opened Framebuffers

  datatype PixelFormat = NoFormat | Rgb565

  /** A pw::framebuffer::Framebuffer: where its pixels are, if anywhere, and their layout. */
  datatype Handle = Handle(data: Option<nat>, format: PixelFormat, width: U16, height: U16, rowBytes: U16) {
    /** What std::move leaves behind: no pixels, but still the old size. */
    function MovedFrom(): Handle {
      this.(data := None, format := NoFormat)
    }
  }

  const NO_FRAMEBUFFER := Handle(None, NoFormat, 0, 0, 0)

  /** One DMA channel: the buffer and pixel offset it reads next, the transfer count that a
      trigger loads, the transfers left, and whether its completion interrupt is pending. */
  datatype Dma = Dma(buffer: Option<nat>, offset: int, reload: nat, count: nat, irq: bool) {
    /** Setting the read address with the trigger flag starts the channel. */
    function Trigger(buffer: Option<nat>, offset: int): Dma {
      Dma(buffer, offset, reload, reload, irq || reload == 0)
    }

    /** One 32-bit transfer, that is, two pixels. */
    function Transfer(): Dma
      requires 0 < count
    {
      this.(offset := offset + 2, count := count - 1, irq := irq || count == 1)
    }
  }

  /** The file-static variables of the driver together with its DMA channel. */
  datatype State = State(scanline: int, fb: Handle, callback: Option<nat>, fireCount: int, dma: Dma)

  type Completion = Option<(Handle, nat)>

  const INITIAL := State(240, NO_FRAMEBUFFER, None, 0, Dma(None, 0, 0, 0, false))

  /** Where the transfer for a scanline number starts: one row above it. */
  function RowOffset(line: int, fbWidth: int): int {
    (line - 1) * (fbWidth / 2)
  }

  /** The interrupt handler: the new state, and the framebuffer and callback it completes. */
  function OnIrq(p: State): (State, Completion) {
    var p := p.(fireCount := p.fireCount + 1);
    if !p.dma.irq then (p, None)
    else
      var fbWidth, fbHeight := ToU16(p.fb.width * 2), ToU16(p.fb.height * 2);
      var p := p.(scanline := p.scanline + 1, dma := p.dma.(irq := false));
      if p.scanline > fbHeight / 2 then
        if p.callback.Some? then (p.(fb := p.fb.MovedFrom(), callback := None), Some((p.fb, p.callback.value)))
        else (p, None)
      else
        var count := if p.scanline == (fbHeight + 1) / 2 then fbWidth / 4 else fbWidth / 2;
        (p.(dma := p.dma.(reload := count).Trigger(p.fb.data, RowOffset(p.scanline, fbWidth))), None)
  }

  predicate IsBusy(p: State) {
    p.scanline <= p.fb.height * 2 / 2 || 0 < p.dma.count
  }

  // WriteFramebuffer after its wait, as the separate assignments between which an interrupt can fall.

  function SetCallback(p: State, callback: nat): State {
    p.(callback := Some(callback))
  }

  function SetFramebuffer(p: State, fb: Handle): State {
    p.(fb := fb)
  }

  function ResetScan(p: State): State {
    p.(scanline := 0, fireCount := 0, dma := p.dma.(reload := p.fb.width * 2 / 4))
  }

  function TriggerFirst(p: State): State {
    p.(dma := p.dma.Trigger(p.fb.data, 0))
  }

  function StartFrame(p: State, fb: Handle, callback: nat): State {
    TriggerFirst(ResetScan(SetFramebuffer(SetCallback(p, callback), fb)))
  }

  class PixelPusherRp2040Pio {
    var currentScanline: int
    var framebuffer: Handle
    var drawCallback: Option<nat>
    var irqFireCount: int
    var dma: Dma

    constructor ()
      ensures Current() == INITIAL
    {
      currentScanline, framebuffer, drawCallback, irqFireCount := 240, NO_FRAMEBUFFER, None, 0;
      dma := Dma(None, 0, 0, 0, false);
    }

    ghost function Current(): State
      reads this
    {
      State(currentScanline, framebuffer, drawCallback, irqFireCount, dma)
    }

    method IrqHandler() returns (done: Completion)
      modifies this
      ensures (Current(), done) == OnIrq(old(Current()))
    {
      irqFireCount := irqFireCount + 1;
      done := None;
      if dma.irq {
        dma := dma.(irq := false);
        var fbWidth, fbHeight := ToU16(framebuffer.width * 2), ToU16(framebuffer.height * 2);
        currentScanline := currentScanline + 1;
        if currentScanline > fbHeight / 2 {
          if drawCallback.Some? {
            done := Some((framebuffer, drawCallback.value));
            framebuffer := framebuffer.MovedFrom();
            drawCallback := None;
          }
          return;
        }
        var count := if currentScanline == (fbHeight + 1) / 2 then fbWidth / 4 else fbWidth / 2;
        dma := dma.(reload := count);
        dma := dma.Trigger(framebuffer.data, (currentScanline - 1) * (fbWidth / 2));
      }
    }

    method DmaIsBusy() returns (busy: bool)
      ensures busy == IsBusy(Current())
      ensures !busy <==> framebuffer.height < currentScanline && dma.count == 0
    {
      if currentScanline <= framebuffer.height * 2 / 2 {
        return true;
      }
      busy := dma.count > 0;
    }

    /** From where the busy-wait has ended; the second precondition is the source's assertion. */
    method WriteFramebuffer(fb: Handle, callback: nat)
      requires !IsBusy(Current())
      requires drawCallback == None
      modifies this
      ensures Current() == StartFrame(old(Current()), fb, callback)
    {
      drawCallback := Some(callback);
      framebuffer := fb;
      var fbWidth := framebuffer.width * 2;
      currentScanline := 0;
      irqFireCount := 0;
      dma := dma.(reload := fbWidth / 4);
      dma := dma.Trigger(framebuffer.data, 0);
    }
  }
}
