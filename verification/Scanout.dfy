/** One frame of pixel-doubled scan-out: the DMA channel fills the PIO's TX FIFO, the
    interrupt handler restarts the channel, and the PIO program shifts bits out to the panel,
    all three interleaved in any order. */
module Scanout {
  import opened Framebuffers
  import opened BitStrings
  import opened Pio
  import opened Pusher
  import opened Doubling

  // ---- The machine ----

  datatype Actor = DmaChannel | Processor | StateMachine

  datatype System = System(pusher: State, fifo: seq<Word>, sm: Sm, panel: seq<bool>,
                           interrupts: nat, completions: seq<(Handle, nat)>)

  /** The joined TX FIFO. */
  const FIFO_DEPTH := 8

  /** One step of one actor; None if that actor has nothing to do. */
  function Next(mem: seq<U16>, s: System, actor: Actor): Option<System> {
    match actor
    case DmaChannel =>
      if 0 < s.pusher.dma.count && |s.fifo| < FIFO_DEPTH then
        Some(s.(fifo := s.fifo + [WordAt(mem, s.pusher.dma.offset)],
                pusher := s.pusher.(dma := s.pusher.dma.Transfer())))
      else None
    case Processor =>
      if s.pusher.dma.irq then
        var (p, done) := OnIrq(s.pusher);
        Some(s.(pusher := p, interrupts := s.interrupts + 1,
                completions := s.completions + if done.Some? then [done.value] else []))
      else None
    case StateMachine =>
      match Step(s.sm, s.fifo)
      case None => None
      case Some(o) => Some(s.(sm := o.sm, fifo := o.fifo, panel := s.panel + o.sampled))
  }

  /** The state reached by a schedule; actors with nothing to do are passed over. */
  function Run(mem: seq<U16>, s: System, schedule: seq<Actor>): System
    decreases |schedule|
  {
    if schedule == [] then s
    else Run(mem, Next(mem, s, schedule[0]).GetOr(s), schedule[1..])
  }

  // ---- What every step keeps ----

  /** The last scanline number for which the handler starts a transfer. */
  function LastLine(fb: Handle): nat {
    ToU16(fb.height * 2) / 2
  }

  function ToCome(mem: seq<U16>, p: State): seq<Word> {
    if p.scanline < 0 || p.scanline > LastLine(p.fb) then []
    else WordsFrom(mem, p.dma.offset, p.dma.count) + Later(mem, p.fb.width, p.fb.height, p.scanline + 1)
  }

  /** Words of this frame, and any before it, that the state machine has not pulled yet. */
  function Backlog(mem: seq<U16>, s: System): seq<Word> {
    s.fifo + ToCome(mem, s.pusher)
  }

  /** All bits already sampled by the panel, then all bits that will be. */
  function Stream(mem: seq<U16>, s: System): seq<bool> {
    s.panel + Owed(s.sm) + DoubledWords(Backlog(mem, s))
  }

  /** The pixel range that the DMA channel has yet to read is inside the framebuffer. */
  predicate ReadsInside(mem: seq<U16>, d: Dma) {
    0 < d.count ==> 0 <= d.offset && d.offset + 2 * d.count <= |mem|
  }

  /** 32-bit reads are aligned (framebuffers are, and rows of even width keep it so). */
  predicate ReadsAligned(fb: Handle, d: Dma) {
    fb.width % 2 == 0 && 0 < d.count ==> d.offset % 2 == 0
  }

  /** The driver's variables during and after a frame. */
  predicate DriverOk(fb: Handle, callback: nat, s: System) {
    var p := s.pusher;
    && p.scanline == s.interrupts == p.fireCount
    && if p.scanline <= LastLine(fb) then
         && p.fb == fb && p.callback == Some(callback) && s.completions == []
         && (p.dma.irq <==> p.dma.count == 0)
       else
         && p.scanline == LastLine(fb) + 1
         && p.fb == fb.MovedFrom() && p.callback == None && s.completions == [(fb, callback)]
         && !p.dma.irq && p.dma.count == 0
  }

  ghost predicate InFrame(mem: seq<U16>, fb: Handle, callback: nat, stream: seq<bool>, s: System) {
    && DriverOk(fb, callback, s)
    && (RowsExist(fb.width, fb.height) ==> ReadsInside(mem, s.pusher.dma))
    && ReadsAligned(fb, s.pusher.dma)
    && Consistent(s.sm)
    && Stream(mem, s) == stream
  }

  /** WriteFramebuffer has just returned; an earlier frame may still be draining. */
  function Started(s: System, fb: Handle, callback: nat): System {
    s.(pusher := StartFrame(s.pusher, fb, callback), interrupts := 0, completions := [])
  }

  predicate Idle(s: System) {
    Consistent(s.sm) && !s.pusher.dma.irq && s.pusher.dma.count == 0 && s.pusher.callback == None
  }

  lemma StartIsInFrame(mem: seq<U16>, s: System, fb: Handle, callback: nat)
    requires Idle(s) && fb.width * fb.height <= |mem|
    ensures InFrame(mem, fb, callback,
                    s.panel + Owed(s.sm) + DoubledWords(s.fifo + FrameWords(mem, fb.width, fb.height)),
                    Started(s, fb, callback))
  {
    hide Step, Owed, Consistent, DoubledWords, WordAt, WordsFrom, Later;
    MulMono(1, fb.height, fb.width);
    var p := StartFrame(s.pusher, fb, callback);
    assert ToCome(mem, p) == FrameWords(mem, fb.width, fb.height);
  }

  /** One transfer fetches the first of the words to come. */
  lemma TransferTakesNext(mem: seq<U16>, p: State)
    requires 0 < p.dma.count && 0 <= p.scanline <= LastLine(p.fb)
    ensures ToCome(mem, p) == [WordAt(mem, p.dma.offset)] + ToCome(mem, p.(dma := p.dma.Transfer()))
  {
    hide WordAt, Later, LastLine;
    var rest := WordsFrom(mem, p.dma.offset + 2, p.dma.count - 1);
    var later := Later(mem, p.fb.width, p.fb.height, p.scanline + 1);
    Regroup([WordAt(mem, p.dma.offset)], rest, later);
  }

  lemma DmaKeeps(mem: seq<U16>, fb: Handle, callback: nat, stream: seq<bool>, s: System)
    requires InFrame(mem, fb, callback, stream, s) && Next(mem, s, DmaChannel).Some?
    ensures InFrame(mem, fb, callback, stream, Next(mem, s, DmaChannel).value)
    ensures Backlog(mem, Next(mem, s, DmaChannel).value) == Backlog(mem, s)
  {
    hide Step, Owed, Consistent, DoubledWords, WordAt, ToCome;
    TransferTakesNext(mem, s.pusher);
    var w, t := WordAt(mem, s.pusher.dma.offset), Next(mem, s, DmaChannel).value;
    Regroup(s.fifo, [w], ToCome(mem, t.pusher));
  }

  /** Each transfer that the handler starts lies inside the framebuffer, and is aligned. */
  lemma HandlerReadsInside(fb: Handle, line: int)
    requires 1 <= line <= LastLine(fb)
    ensures var fbWidth := ToU16(fb.width * 2);
            var count := if line == (ToU16(fb.height * 2) + 1) / 2 then fbWidth / 4 else fbWidth / 2;
            && 0 <= RowOffset(line, fbWidth) && RowOffset(line, fbWidth) + 2 * count <= fb.width * fb.height
            && (fb.width % 2 == 0 ==> RowOffset(line, fbWidth) % 2 == 0)
  {
    hide RowOffset, ToU16;
    var fbWidth, last := ToU16(fb.width * 2), LastLine(fb);
    HalfOfDoubled(fb.width);
    HalfOfDoubled(fb.height);
    RowsFit(line, fbWidth, last, fb.width, fb.height);
  }

  lemma RowsFit(line: int, fbWidth: nat, last: nat, width: nat, height: nat)
    requires 1 <= line <= last <= height && fbWidth / 2 <= width
    ensures 0 <= RowOffset(line, fbWidth)
    ensures RowOffset(line, fbWidth) + fbWidth / 2 <= width * height
    ensures line < last ==> RowOffset(line, fbWidth) + 2 * (fbWidth / 2) <= width * height
    ensures fbWidth / 2 % 2 == 0 ==> RowOffset(line, fbWidth) % 2 == 0
  {
    var stride := fbWidth / 2;
    MulMono(0, line - 1, stride);
    MulMono(line, height, stride);
    MulMono(line + 1, height, stride);
    MulMono(stride, width, height);
    EvenMultiple(line - 1, stride);
    assert (line - 1) * stride + stride == line * stride;
    assert line * stride + stride == (line + 1) * stride;
  }

  lemma EvenMultiple(a: int, b: int)
    ensures b % 2 == 0 ==> a * b % 2 == 0
  {
    if b % 2 == 0 {
      assert a * b == 2 * (a * (b / 2));
    }
  }

  lemma IrqKeepsDriver(mem: seq<U16>, fb: Handle, callback: nat, s: System)
    requires DriverOk(fb, callback, s) && Next(mem, s, Processor).Some?
    requires fb.width * fb.height <= |mem|
    ensures var t := Next(mem, s, Processor).value;
            DriverOk(fb, callback, t) && ReadsInside(mem, t.pusher.dma) && ReadsAligned(fb, t.pusher.dma)
  {
    hide Step, RowOffset;
    var line := s.pusher.scanline + 1;
    if line <= LastLine(fb) {
      HandlerReadsInside(fb, line);
    }
  }

  lemma IrqKeepsWords(mem: seq<U16>, fb: Handle, callback: nat, s: System)
    requires DriverOk(fb, callback, s) && Next(mem, s, Processor).Some?
    ensures ToCome(mem, Next(mem, s, Processor).value.pusher) == ToCome(mem, s.pusher)
  {
    hide Step, ToCome, OnIrq;
    HandlerKeepsWords(mem, s.pusher);
  }

  lemma HandlerKeepsWords(mem: seq<U16>, p: State)
    requires p.dma.irq && p.dma.count == 0 && p.callback.Some? && 0 <= p.scanline <= LastLine(p.fb)
    ensures ToCome(mem, OnIrq(p).0) == ToCome(mem, p)
    ensures OnIrq(p).1.Some? ==> ToCome(mem, p) == []
  {
    hide WordAt, RowOffset, ToU16, Later;
    LaterUnfolds(mem, p.fb.width, p.fb.height, p.scanline + 1);
  }

  lemma IrqKeeps(mem: seq<U16>, fb: Handle, callback: nat, stream: seq<bool>, s: System)
    requires InFrame(mem, fb, callback, stream, s) && Next(mem, s, Processor).Some?
    requires fb.width * fb.height <= |mem|
    ensures InFrame(mem, fb, callback, stream, Next(mem, s, Processor).value)
    ensures Backlog(mem, Next(mem, s, Processor).value) == Backlog(mem, s)
  {
    IrqKeepsDriver(mem, fb, callback, s);
    IrqKeepsWords(mem, fb, callback, s);
    hide Step, Owed, Consistent, DoubledWords, ToCome, DriverOk, OnIrq;
  }

  lemma PioKeeps(mem: seq<U16>, fb: Handle, callback: nat, stream: seq<bool>, s: System)
    requires InFrame(mem, fb, callback, stream, s) && Next(mem, s, StateMachine).Some?
    ensures InFrame(mem, fb, callback, stream, Next(mem, s, StateMachine).value)
  {
    hide Step, Owed, Consistent, DoubledWords, DoubledWord, ToCome, ReadsInside, ReadsAligned, RowsExist;
    StepPaysWhatIsOwed(s.sm, s.fifo);
    var o := Step(s.sm, s.fifo).value;
    if s.sm.pc == 0 {
      PullKeepsStream(s.panel, s.sm, s.fifo, o, ToCome(mem, s.pusher));
    } else {
      assert (s.panel + o.sampled) + Owed(o.sm) == s.panel + (o.sampled + Owed(o.sm));
    }
  }

  lemma PullKeepsStream(panel: seq<bool>, sm: Sm, fifo: seq<Word>, o: Outcome, later: seq<Word>)
    requires sm.pc == 0 && fifo != [] && Pays(sm, fifo, o)
    ensures panel + o.sampled + Owed(o.sm) + DoubledWords(o.fifo + later)
         == panel + Owed(sm) + DoubledWords(fifo + later)
  {
    hide Owed, Consistent, DoubledWord;
    var w := fifo[0];
    assert (fifo + later)[1..] == fifo[1..] + later;
    assert DoubledWords(fifo + later) == DoubledWord(w) + DoubledWords(o.fifo + later);
    hide DoubledWords;
    assert (panel + o.sampled) + Owed(o.sm) == panel + (Owed(sm) + DoubledWord(w));
    Reassociate(panel, Owed(sm), DoubledWord(w), DoubledWords(o.fifo + later));
  }

  lemma Reassociate(a: seq<bool>, b: seq<bool>, c: seq<bool>, d: seq<bool>)
    ensures a + (b + c) + d == a + b + (c + d)
  {
  }

  // ---- Whole frames ----

  lemma {:induction false} RunKeeps(mem: seq<U16>, fb: Handle, callback: nat, stream: seq<bool>,
                                    s: System, schedule: seq<Actor>)
    requires InFrame(mem, fb, callback, stream, s)
    requires fb.width * fb.height <= |mem|
    ensures InFrame(mem, fb, callback, stream, Run(mem, s, schedule))
    decreases |schedule|
  {
    hide InFrame, Next;
    if schedule == [] {
    } else {
      NextKeeps(mem, fb, callback, stream, s, schedule[0]);
      RunKeeps(mem, fb, callback, stream, Next(mem, s, schedule[0]).GetOr(s), schedule[1..]);
    }
  }

  lemma NextKeeps(mem: seq<U16>, fb: Handle, callback: nat, stream: seq<bool>, s: System, actor: Actor)
    requires InFrame(mem, fb, callback, stream, s)
    requires fb.width * fb.height <= |mem|
    ensures InFrame(mem, fb, callback, stream, Next(mem, s, actor).GetOr(s))
  {
    hide InFrame, Next;
    if Next(mem, s, actor).Some? {
      match actor
      case DmaChannel => DmaKeeps(mem, fb, callback, stream, s);
      case Processor => IrqKeeps(mem, fb, callback, stream, s);
      case StateMachine => PioKeeps(mem, fb, callback, stream, s);
    }
  }

  /** No actor can do anything more. */
  predicate Quiet(mem: seq<U16>, s: System) {
    forall actor: Actor :: Next(mem, s, actor).None?
  }

  lemma QuietMeansDone(mem: seq<U16>, fb: Handle, callback: nat, stream: seq<bool>, s: System)
    requires InFrame(mem, fb, callback, stream, s) && Quiet(mem, s)
    ensures s.panel == stream
    ensures s.completions == [(fb, callback)] && s.interrupts == LastLine(fb) + 1
  {
    hide Step;
    StepPaysWhatIsOwed(s.sm, s.fifo);
    assert Next(mem, s, StateMachine).None?;
    assert Next(mem, s, DmaChannel).None?;
    assert Next(mem, s, Processor).None?;
  }

  /** Work left in a frame, in steps. */
  function Measure(mem: seq<U16>, s: System): int {
    139 * |ToCome(mem, s.pusher)| + 138 * |s.fifo| + Work(s.sm) + LastLine(s.pusher.fb) + 1 - s.pusher.scanline
  }

  lemma DmaStepIsProgress(mem: seq<U16>, fb: Handle, callback: nat, s: System)
    requires DriverOk(fb, callback, s) && Next(mem, s, DmaChannel).Some?
    ensures Measure(mem, Next(mem, s, DmaChannel).value) == Measure(mem, s) - 1
  {
    hide Step, Work, WordAt, Later;
    var d := s.pusher.dma;
    assert |WordsFrom(mem, d.offset, d.count)| == 1 + |WordsFrom(mem, d.offset + 2, d.count - 1)|;
  }

  lemma IrqStepIsProgress(mem: seq<U16>, fb: Handle, callback: nat, s: System)
    requires DriverOk(fb, callback, s) && Next(mem, s, Processor).Some?
    ensures Measure(mem, Next(mem, s, Processor).value) == Measure(mem, s) - 1
  {
    IrqKeepsWords(mem, fb, callback, s);
    hide Step, Work, ToCome;
  }

  lemma PioStepIsProgress(mem: seq<U16>, s: System)
    requires Consistent(s.sm) && Next(mem, s, StateMachine).Some?
    ensures Measure(mem, Next(mem, s, StateMachine).value) < Measure(mem, s)
  {
    StepPaysWhatIsOwed(s.sm, s.fifo);
    StepDoesWork(s.sm, s.fifo);
    hide Step, Work, ToCome, Owed, Consistent;
  }

  lemma StepsAreFinite(mem: seq<U16>, fb: Handle, callback: nat, stream: seq<bool>, s: System, actor: Actor)
    requires InFrame(mem, fb, callback, stream, s)
    ensures 0 <= Measure(mem, s)
    ensures Next(mem, s, actor).Some? ==> Measure(mem, Next(mem, s, actor).value) < Measure(mem, s)
  {
    StepDoesWork(s.sm, [Zeros(32)]);
    hide Step, Work, Owed, DoubledWords, ToCome, Next;
    if Next(mem, s, actor).Some? {
      hide Measure;
      match actor
      case DmaChannel => DmaStepIsProgress(mem, fb, callback, s);
      case Processor => IrqStepIsProgress(mem, fb, callback, s);
      case StateMachine => PioStepIsProgress(mem, s);
    }
  }

  /** Steps of a schedule in which something happens. */
  function Moves(mem: seq<U16>, s: System, schedule: seq<Actor>): nat
    decreases |schedule|
  {
    if schedule == [] then 0
    else
      var next := Next(mem, s, schedule[0]);
      (if next.Some? then 1 else 0) + Moves(mem, next.GetOr(s), schedule[1..])
  }

  lemma {:induction false} MovesAreBounded(mem: seq<U16>, fb: Handle, callback: nat, stream: seq<bool>,
                                           s: System, schedule: seq<Actor>)
    requires InFrame(mem, fb, callback, stream, s)
    requires fb.width * fb.height <= |mem|
    ensures Moves(mem, s, schedule) <= Measure(mem, s)
    decreases |schedule|
  {
    hide InFrame, Next, Measure;
    StepsAreFinite(mem, fb, callback, stream, s, if schedule == [] then Processor else schedule[0]);
    if schedule == [] {
    } else {
      NextKeeps(mem, fb, callback, stream, s, schedule[0]);
      MovesAreBounded(mem, fb, callback, stream, Next(mem, s, schedule[0]).GetOr(s), schedule[1..]);
    }
  }

  lemma InFrameIsSafe(mem: seq<U16>, fb: Handle, callback: nat, stream: seq<bool>, s: System)
    requires InFrame(mem, fb, callback, stream, s)
    ensures RowsExist(fb.width, fb.height) ==> ReadsInside(mem, s.pusher.dma)
    ensures ReadsAligned(fb, s.pusher.dma)
    ensures s.panel <= stream
    ensures s.completions == if s.interrupts <= LastLine(fb) then [] else [(fb, callback)]
    ensures s.interrupts <= LastLine(fb) + 1 && s.pusher.fireCount == s.interrupts
  {
    hide Owed, DoubledWords, Consistent;
  }

  /** The first transfer stays inside a framebuffer of just its own size exactly if it has rows. */
  lemma FirstReadIsInside(mem: seq<U16>, s: System, fb: Handle, callback: nat)
    requires Idle(s) && |mem| == fb.width * fb.height
    ensures ReadsInside(mem, Started(s, fb, callback).pusher.dma) <==> RowsExist(fb.width, fb.height)
  {
    MulMono(1, fb.height, fb.width);
    assert fb.height == 0 ==> |mem| == 0;
  }

  /** One frame under every schedule of the three actors: no read leaves a framebuffer that has rows, the
      panel only ever sees the start of the right stream, the frame completes once, on the
      last interrupt, and when nothing can move the whole stream has been sampled. Only
      boundedly many steps do anything, so that point is always reached. */
  lemma ScanoutIsCorrect(mem: seq<U16>, s: System, fb: Handle, callback: nat, schedule: seq<Actor>)
    requires Idle(s) && fb.width * fb.height <= |mem|
    ensures var start := Started(s, fb, callback);
            var stream := s.panel + Owed(s.sm) + DoubledWords(s.fifo + FrameWords(mem, fb.width, fb.height));
            var t := Run(mem, start, schedule);
            && (RowsExist(fb.width, fb.height) ==> ReadsInside(mem, t.pusher.dma))
            && ReadsAligned(fb, t.pusher.dma)
            && t.panel <= stream
            && t.completions == (if t.interrupts <= LastLine(fb) then [] else [(fb, callback)])
            && t.interrupts <= LastLine(fb) + 1 && t.pusher.fireCount == t.interrupts
            && (Quiet(mem, t) ==> t.panel == stream && t.interrupts == LastLine(fb) + 1)
            && Moves(mem, start, schedule) <= Measure(mem, start)
  {
    hide InFrame, Quiet, Measure, Moves, Run, ReadsInside, ReadsAligned, RowsExist, Started, Idle;
    var stream := s.panel + Owed(s.sm) + DoubledWords(s.fifo + FrameWords(mem, fb.width, fb.height));
    var start := Started(s, fb, callback);
    StartIsInFrame(mem, s, fb, callback);
    RunKeeps(mem, fb, callback, stream, start, schedule);
    MovesAreBounded(mem, fb, callback, stream, start, schedule);
    var t := Run(mem, start, schedule);
    InFrameIsSafe(mem, fb, callback, stream, t);
    if Quiet(mem, t) {
      QuietMeansDone(mem, fb, callback, stream, t);
    }
  }

  /** The two together: once nothing moves, the panel has been sent the doubled picture if and
      only if the framebuffer's size allows it. */
  lemma PanelShowsDoubledPicture(mem: seq<U16>, s: System, fb: Handle, callback: nat, schedule: seq<Actor>)
    requires Idle(s) && s.sm.pc == 0 && s.fifo == [] && s.panel == []
    requires fb.width * fb.height <= |mem|
    requires Quiet(mem, Run(mem, Started(s, fb, callback), schedule))
    ensures var t := Run(mem, Started(s, fb, callback), schedule);
            && t.completions == [(fb, callback)]
            && (fb.height < 32768 ==> t.interrupts == fb.height + 1)
            && ((exists lines :: IsDoubled(lines, mem, fb.width, fb.height) && t.panel == PixelBits(Concat(lines)))
                <==> ShownExactly(fb.width, fb.height))
  {
    var words := FrameWords(mem, fb.width, fb.height);
    assert s.fifo + words == words && Owed(s.sm) == [];
    hide InFrame, Quiet, Measure, Moves, Run, ReadsInside, ReadsAligned, RowsExist, Started, Idle;
    hide DoubledWords, FrameWords, ShownExactly, IsDoubled, Concat, PixelBits;
    HalfOfDoubled(fb.height);
    ScanoutIsCorrect(mem, s, fb, callback, schedule);
    FrameIsDoubledExactly(mem, fb.width, fb.height);
  }

  // ---- Frame after frame ----

  /** A framebuffer as it is while it is scanned out, and the schedule until the next one is. */
  datatype Frame = Frame(mem: seq<U16>, fb: Handle, callback: nat, schedule: seq<Actor>)

  predicate Backed(f: Frame) {
    f.fb.width * f.fb.height <= |f.mem|
  }

  function Show(s: System, f: Frame): System {
    Run(f.mem, Started(s, f.fb, f.callback), f.schedule)
  }

  function ShowAll(s: System, frames: seq<Frame>): System
    decreases |frames|
  {
    if frames == [] then s else ShowAll(Show(s, frames[0]), frames[1..])
  }

  /** Each frame but the last runs until WriteFramebuffer's busy-wait would end. */
  predicate Waited(s: System, frames: seq<Frame>)
    decreases |frames|
  {
    |frames| <= 1 || (!IsBusy(Show(s, frames[0]).pusher) && Waited(Show(s, frames[0]), frames[1..]))
  }

  function AllWords(frames: seq<Frame>): seq<Word> {
    if frames == [] then []
    else FrameWords(frames[0].mem, frames[0].fb.width, frames[0].fb.height) + AllWords(frames[1..])
  }

  function AllPixels(frames: seq<Frame>): seq<U16>
    requires forall f :: f in frames ==> Backed(f)
  {
    if frames == [] then []
    else
      assert frames[0] in frames && Backed(frames[0]);
      DoubledPicture(frames[0].mem, frames[0].fb.width, frames[0].fb.height) + AllPixels(frames[1..])
  }

  function StreamOf(s: System, words: seq<Word>): seq<bool> {
    s.panel + Owed(s.sm) + DoubledWords(s.fifo + words)
  }

  /** When the busy-wait would end, the frame has completed and all its words were fetched. */
  lemma NotBusyMeansIdle(f: Frame, stream: seq<bool>, s: System)
    requires InFrame(f.mem, f.fb, f.callback, stream, s) && !IsBusy(s.pusher)
    ensures Idle(s) && StreamOf(s, []) == stream
  {
    hide Step, Owed, Consistent, DoubledWords;
    assert LastLine(f.fb) <= f.fb.height by {
      HalfOfDoubled(f.fb.height);
    }
    hide ToU16;
  }

  lemma StreamOfMore(s: System, words: seq<Word>, more: seq<Word>)
    ensures StreamOf(s, words + more) == StreamOf(s, words) + DoubledWords(more)
  {
    hide Owed, DoubledWords;
    Regroup(s.fifo, words, more);
    DoubledWordsConcat(s.fifo + words, more);
  }

  /** One more frame in front of others. */
  lemma StreamGoesOn(s: System, frames: seq<Frame>)
    requires frames != [] && Idle(s) && Backed(frames[0]) && !IsBusy(Show(s, frames[0]).pusher)
    ensures var t := Show(s, frames[0]);
            Idle(t) && StreamOf(t, AllWords(frames[1..])) == StreamOf(s, AllWords(frames))
  {
    var f := frames[0];
    var t, words, rest := Show(s, f), FrameWords(f.mem, f.fb.width, f.fb.height), AllWords(frames[1..]);
    hide InFrame, Run, Started, Idle, IsBusy, FrameWords;
    StartIsInFrame(f.mem, s, f.fb, f.callback);
    RunKeeps(f.mem, f.fb, f.callback, StreamOf(s, words), Started(s, f.fb, f.callback), f.schedule);
    NotBusyMeansIdle(f, StreamOf(s, words), t);
    hide StreamOf, Show;
    StreamOfMore(s, words, rest);
    StreamOfMore(t, [], rest);
    assert [] + rest == rest;
  }

  lemma OneFrame(s: System, frames: seq<Frame>)
    requires Idle(s) && |frames| == 1 && Backed(frames[0])
    ensures ShowAll(s, frames).panel <= StreamOf(s, AllWords(frames))
    ensures Quiet(frames[0].mem, ShowAll(s, frames)) ==> ShowAll(s, frames).panel == StreamOf(s, AllWords(frames))
  {
    hide Idle, Run, Started, Quiet, FrameWords, Measure, Moves, RowsExist, ReadsInside, ReadsAligned;
    var f := frames[0];
    ScanoutIsCorrect(f.mem, s, f.fb, f.callback, f.schedule);
    var words := FrameWords(f.mem, f.fb.width, f.fb.height);
    assert AllWords(frames) == words + AllWords([]) == words;
    assert ShowAll(s, frames) == ShowAll(Show(s, f), []) == Show(s, f);
  }

  /** Frame after frame, an earlier one still draining when the next begins: the panel sees the
      frames' words in order, without loss, and all of them once nothing moves. */
  lemma {:induction false} FramesFollowEachOther(s: System, frames: seq<Frame>)
    requires Idle(s) && frames != [] && Waited(s, frames) && forall f :: f in frames ==> Backed(f)
    ensures var t := ShowAll(s, frames);
            && t.panel <= StreamOf(s, AllWords(frames))
            && (Quiet(frames[|frames| - 1].mem, t) ==> t.panel == StreamOf(s, AllWords(frames)))
    decreases |frames|
  {
    var f := frames[0];
    assert f in frames;
    if |frames| == 1 {
      OneFrame(s, frames);
    } else {
      assert forall g :: g in frames[1..] ==> g in frames;
      assert frames[1..][|frames[1..]| - 1] == frames[|frames| - 1];
      hide Idle, Show, StreamOf, Quiet, AllWords, Backed, IsBusy;
      StreamGoesOn(s, frames);
      FramesFollowEachOther(Show(s, f), frames[1..]);
    }
  }

  lemma {:induction false} AllFramesAreDoubled(frames: seq<Frame>)
    requires forall f :: f in frames ==> Backed(f) && ShownExactly(f.fb.width, f.fb.height)
    ensures DoubledWords(AllWords(frames)) == PixelBits(AllPixels(frames))
  {
    if frames == [] {
    } else {
      var f, rest := frames[0], frames[1..];
      assert f in frames;
      AllFramesAreDoubled(rest);
      FrameIsDoubledPicture(f.mem, f.fb.width, f.fb.height);
      hide DoubledWords, PixelBits, FrameWords, DoubledPicture, ShownExactly;
      DoubledWordsConcat(FrameWords(f.mem, f.fb.width, f.fb.height), AllWords(rest));
      PixelBitsConcat(DoubledPicture(f.mem, f.fb.width, f.fb.height), AllPixels(rest));
    }
  }

  /** No frame fetches too many words, so one with too few is never made up for. */
  lemma {:induction false} OneShortFrameIsEnough(frames: seq<Frame>)
    requires forall f :: f in frames ==> Backed(f) && RowsExist(f.fb.width, f.fb.height)
    ensures 4 * |AllWords(frames)| <= |AllPixels(frames)|
    ensures 4 * |AllWords(frames)| == |AllPixels(frames)| ==>
              forall f :: f in frames ==> ShownExactly(f.fb.width, f.fb.height)
  {
    if frames == [] {
    } else {
      var f, rest := frames[0], frames[1..];
      assert f in frames;
      assert forall g :: g in frames ==> g == f || g in rest;
      OneShortFrameIsEnough(rest);
      FrameLength(f);
      hide FrameWords, DoubledPicture, ShownExactly;
    }
  }

  lemma FrameLength(f: Frame)
    requires Backed(f) && RowsExist(f.fb.width, f.fb.height)
    ensures var words := FrameWords(f.mem, f.fb.width, f.fb.height);
            4 * |words| <= |DoubledPicture(f.mem, f.fb.width, f.fb.height)|
    ensures 4 * |FrameWords(f.mem, f.fb.width, f.fb.height)| == |DoubledPicture(f.mem, f.fb.width, f.fb.height)| ==>
              ShownExactly(f.fb.width, f.fb.height)
  {
    hide FrameWords, DoubledPicture, ShownExactly;
    DoubledPictureLength(f.mem, f.fb.width, f.fb.height);
    FrameIsShort(f.mem, f.fb.width, f.fb.height);
    if ShownExactly(f.fb.width, f.fb.height) {
      FrameIsDoubledPicture(f.mem, f.fb.width, f.fb.height);
      DoubledWordsLength(FrameWords(f.mem, f.fb.width, f.fb.height));
      PixelBitsLength(DoubledPicture(f.mem, f.fb.width, f.fb.height));
    }
  }

  /** The words of frames that have rows are their doubled pictures exactly if every size allows it. */
  lemma AllPicturesExactly(frames: seq<Frame>)
    requires forall f :: f in frames ==> Backed(f)
    ensures (forall f :: f in frames ==> ShownExactly(f.fb.width, f.fb.height)) ==>
              DoubledWords(AllWords(frames)) == PixelBits(AllPixels(frames))
    ensures (forall f :: f in frames ==> RowsExist(f.fb.width, f.fb.height)) ==>
              DoubledWords(AllWords(frames)) == PixelBits(AllPixels(frames)) ==>
              forall f :: f in frames ==> ShownExactly(f.fb.width, f.fb.height)
  {
    hide DoubledWords, AllWords, AllPixels, PixelBits, ShownExactly, RowsExist, Backed;
    if forall f :: f in frames ==> ShownExactly(f.fb.width, f.fb.height) {
      AllFramesAreDoubled(frames);
    } else if forall f :: f in frames ==> RowsExist(f.fb.width, f.fb.height) {
      OneShortFrameIsEnough(frames);
      DoubledWordsLength(AllWords(frames));
      PixelBitsLength(AllPixels(frames));
    }
  }

  predicate SameSizes(frames: seq<Frame>, others: seq<Frame>) {
    |others| == |frames| && forall k :: 0 <= k < |frames| ==> others[k].fb == frames[k].fb
  }

  /** Pixels that no frame can stand in for: all ones, and zeros where a row is read that the
      framebuffer does not have. */
  function Contrasting(fb: Handle): (mem: seq<U16>)
    ensures fb.width * fb.height <= |mem|
  {
    if fb.height == 0 then seq(fb.width, _ => 0)
    else
      MulMono(0, fb.width, fb.height);
      seq(fb.width * fb.height, _ => 65535)
  }

  function Contrasted(frames: seq<Frame>): seq<Frame> {
    seq(|frames|, k requires 0 <= k < |frames| => frames[k].(mem := Contrasting(frames[k].fb)))
  }

  lemma ContrastedIsBacked(frames: seq<Frame>)
    ensures SameSizes(frames, Contrasted(frames))
    ensures forall f :: f in Contrasted(frames) ==> Backed(f) && f.mem == Contrasting(f.fb)
  {
    hide Contrasting;
    forall k | 0 <= k < |frames|
      ensures Contrasted(frames)[k] == frames[k].(mem := Contrasting(frames[k].fb))
      ensures Backed(Contrasted(frames)[k])
    {
    }
  }

  lemma {:induction false} PixelBitsOfOnes(ps: seq<U16>)
    requires forall p :: p in ps ==> p == 65535
    ensures false !in PixelBits(ps)
  {
    if ps == [] {
    } else {
      OnesBits(16);
      assert Pow2(8) == 256 && Pow2(16) == 65536;
      hide Bits, Pow2;
      assert ps[0] in ps && forall p :: p in ps[1..] ==> p in ps;
      PixelBitsOfOnes(ps[1..]);
    }
  }

  lemma {:induction false} OnesBits(n: nat)
    ensures false !in Bits(Pow2(n) - 1, n)
  {
    if n == 0 {
    } else {
      OnesBits(n - 1);
    }
  }

  lemma {:induction false} AllPixelsAreOnes(frames: seq<Frame>)
    requires forall f :: f in frames ==> Backed(f) && f.mem == Contrasting(f.fb)
    ensures forall p :: p in AllPixels(frames) ==> p == 65535
  {
    if frames == [] {
    } else {
      var f := frames[0];
      assert f in frames;
      PictureIsOnes(f);
      hide DoubledPicture, Contrasting;
      AllPixelsAreOnes(frames[1..]);
    }
  }

  lemma PictureIsOnes(f: Frame)
    requires Backed(f) && f.mem == Contrasting(f.fb)
    ensures forall p :: p in DoubledPicture(f.mem, f.fb.width, f.fb.height) ==> p == 65535
  {
    if f.fb.height == 0 {
      DoubledPictureLength(f.mem, f.fb.width, 0);
    } else {
      hide DoubledPicture;
      DoubledPictureColors(f.mem, f.fb.width, f.fb.height);
    }
  }

  /** The zeros of a row that is not there end up among the bits. */
  lemma {:induction false} MissingRowShows(frames: seq<Frame>, f: Frame)
    requires f in frames && f.mem == Contrasting(f.fb) && !RowsExist(f.fb.width, f.fb.height)
    ensures false in DoubledWords(AllWords(frames))
  {
    var first, rest := frames[0], frames[1..];
    var words := FrameWords(first.mem, first.fb.width, first.fb.height);
    hide DoubledWords, FrameWords, Contrasting;
    DoubledWordsConcat(words, AllWords(rest));
    if f == first {
      ZeroRow(f.mem, f.fb.width);
    } else {
      MissingRowShows(rest, f);
    }
  }

  /** If some size is not right, some pixels go wrong. */
  lemma ContrastShows(frames: seq<Frame>)
    requires forall f :: f in frames ==> Backed(f) && f.mem == Contrasting(f.fb)
    ensures DoubledWords(AllWords(frames)) == PixelBits(AllPixels(frames)) ==>
              forall f :: f in frames ==> ShownExactly(f.fb.width, f.fb.height)
  {
    hide DoubledWords, AllWords, AllPixels, PixelBits, ShownExactly, RowsExist, Backed, Contrasting;
    if f :| f in frames && !RowsExist(f.fb.width, f.fb.height) {
      MissingRowShows(frames, f);
      AllPixelsAreOnes(frames);
      PixelBitsOfOnes(AllPixels(frames));
    } else {
      AllPicturesExactly(frames);
    }
  }

  /** For given sizes: the words of the frames are their doubled pictures, whatever the pixels,
      if and only if every size allows it. */
  lemma SizesDecide(frames: seq<Frame>)
    ensures (forall others: seq<Frame> :: SameSizes(frames, others) && (forall g :: g in others ==> Backed(g)) ==>
               DoubledWords(AllWords(others)) == PixelBits(AllPixels(others)))
            <==> forall f :: f in frames ==> ShownExactly(f.fb.width, f.fb.height)
  {
    hide DoubledWords, AllWords, AllPixels, PixelBits, ShownExactly, Backed, Contrasting, Contrasted;
    if forall f :: f in frames ==> ShownExactly(f.fb.width, f.fb.height) {
      forall others: seq<Frame> | SameSizes(frames, others) && (forall g :: g in others ==> Backed(g))
        ensures DoubledWords(AllWords(others)) == PixelBits(AllPixels(others))
      {
        assert forall k :: 0 <= k < |others| ==> frames[k] in frames && others[k].fb == frames[k].fb;
        AllFramesAreDoubled(others);
      }
    } else {
      var others := Contrasted(frames);
      ContrastedIsBacked(frames);
      ContrastShows(others);
      var f :| f in frames && !ShownExactly(f.fb.width, f.fb.height);
      var k :| 0 <= k < |frames| && frames[k] == f;
      assert others[k] in others && others[k].fb == f.fb;
    }
  }

  /** Any number of frames on a drained machine: once nothing moves, the panel has been sent
      their doubled pictures one after another if and only if every size allows it. (A frame
      without rows sends words of no picture, which could stand in for missing ones, but not
      in contrasting pictures.) */
  lemma PanelShowsAllPictures(s: System, frames: seq<Frame>)
    requires Idle(s) && s.sm.pc == 0 && s.fifo == [] && s.panel == []
    requires frames != [] && Waited(s, frames) && forall f :: f in frames ==> Backed(f)
    requires Quiet(frames[|frames| - 1].mem, ShowAll(s, frames))
    ensures (forall f :: f in frames ==> ShownExactly(f.fb.width, f.fb.height)) ==>
              ShowAll(s, frames).panel == PixelBits(AllPixels(frames))
    ensures (forall f :: f in frames ==> RowsExist(f.fb.width, f.fb.height))
            || (forall f :: f in frames ==> f.mem == Contrasting(f.fb)) ==>
              ShowAll(s, frames).panel == PixelBits(AllPixels(frames)) ==>
              forall f :: f in frames ==> ShownExactly(f.fb.width, f.fb.height)
  {
    hide Idle, Quiet, Waited, ShowAll, DoubledWords, AllWords, AllPixels, PixelBits;
    hide ShownExactly, RowsExist, Backed, Contrasting;
    PanelHasAllWords(s, frames);
    AllPicturesExactly(frames);
    if forall f :: f in frames ==> f.mem == Contrasting(f.fb) {
      ContrastShows(frames);
    }
  }

  lemma PanelHasAllWords(s: System, frames: seq<Frame>)
    requires Idle(s) && s.sm.pc == 0 && s.fifo == [] && s.panel == []
    requires frames != [] && Waited(s, frames) && forall f :: f in frames ==> Backed(f)
    requires Quiet(frames[|frames| - 1].mem, ShowAll(s, frames))
    ensures ShowAll(s, frames).panel == DoubledWords(AllWords(frames))
  {
    hide Idle, Quiet, Waited, ShowAll, DoubledWords, AllWords, Backed;
    FramesFollowEachOther(s, frames);
    assert Owed(s.sm) == [];
    hide Owed;
    assert s.fifo + AllWords(frames) == AllWords(frames);
  }
}
