/** The whole way of a picture: the application draws on the buffers it holds, the hand-off
    passes a released buffer to the driver, DMA and interrupts fetch its words while the
    application goes on drawing, and the PIO program sends their bits to the panel. */
module Pipeline {
  import opened Framebuffers
  import opened Pio
  import opened Pusher
  import opened Doubling
  import H = Handoff
  import P = Pool
  import S = Scanout

  /** `pixels` is the memory of each buffer of the pool; `released` records, for each release,
      what the buffer showed when the release began. */
  datatype Machine = Machine(system: H.System, pixels: seq<seq<U16>>, released: seq<seq<U16>>,
                             fifo: seq<Word>, sm: Sm, panel: seq<bool>)

  /** A step of the hand-off, a drawing operation on a held buffer, or one PIO instruction. */
  datatype Event = Steps(event: H.Event) | Draws(position: nat, picture: seq<U16>) | Executes

  function PixelsOf(m: Machine, b: P.Buffer): seq<U16> {
    if b.index < |m.pixels| then m.pixels[b.index] else []
  }

  /** What the DMA channel reads. */
  function DmaMemory(m: Machine): seq<U16> {
    var buffer := m.system.pusher.dma.buffer;
    if buffer.Some? then PixelsOf(m, P.Buffer(buffer.value, 0)) else []
  }

  /** The DMA channel waits for room in the FIFO. */
  predicate Possible(m: Machine, e: Event) {
    match e
    case Steps(h) => H.Possible(m.system, h) && (h.DmaTransfers? ==> |m.fifo| < S.FIFO_DEPTH)
    case Draws(i, picture) => i < |m.system.held| && |picture| == |PixelsOf(m, m.system.held[i])|
    case Executes => Step(m.sm, m.fifo).Some?
  }

  function Apply(f: H.Format, m: Machine, e: Event): Machine
    requires Possible(m, e)
  {
    match e
    case Steps(h) =>
      var t := m.(system := H.Apply(f, m.system, h));
      if h.BeginRelease? then t.(released := m.released + [PixelsOf(m, m.system.held[h.position])])
      else if h.DmaTransfers? then t.(fifo := m.fifo + [WordAt(DmaMemory(m), m.system.pusher.dma.offset)])
      else t
    case Draws(i, picture) =>
      var index := m.system.held[i].index;
      if index < |m.pixels| then m.(pixels := m.pixels[index := picture]) else m
    case Executes =>
      var o := Step(m.sm, m.fifo).value;
      m.(sm := o.sm, fifo := o.fifo, panel := m.panel + o.sampled)
  }

  /** Events that are not possible when their turn comes are passed over. */
  function Next(f: H.Format, m: Machine, e: Event): Machine {
    if Possible(m, e) then Apply(f, m, e) else m
  }

  function Run(f: H.Format, m: Machine, events: seq<Event>): Machine
    decreases |events|
  {
    if events == [] then m else Run(f, Next(f, m, events[0]), events[1..])
  }

  /** The panel's state machine waits for its first word. */
  function Initial(pixels: seq<seq<U16>>, sm: Sm): Machine {
    Machine(H.Initial(|pixels|), pixels, [], [], sm, [])
  }

  /** The run of the hand-off that is part of this run. */
  function HandoffEvents(f: H.Format, m: Machine, events: seq<Event>): seq<H.Event>
    decreases |events|
  {
    if events == [] then []
    else
      var rest := HandoffEvents(f, Next(f, m, events[0]), events[1..]);
      if events[0].Steps? && Possible(m, events[0]) then [events[0].event] + rest else rest
  }

  // ---- What should be on the panel ----

  /** The released pictures as frames of the pool's format. */
  function FramesOf(f: H.Format, pictures: seq<seq<U16>>): seq<S.Frame> {
    seq(|pictures|, k requires 0 <= k < |pictures| => S.Frame(pictures[k], H.HandleOf(f, 0), k, []))
  }

  /** The pictures whose frames have been started, as they were when they were released. */
  function Started(m: Machine): seq<seq<U16>> {
    if |m.system.started| <= |m.released| then m.released[..|m.system.started|] else m.released
  }

  /** Words of the frame in flight that have not been fetched yet, with the pixels as they are now. */
  function Awaited(m: Machine): seq<Word> {
    var flight := H.InFlight(m.system);
    if flight == [] then [] else S.ToCome(PixelsOf(m, flight[0]), m.system.pusher)
  }

  /** What the panel has sampled, then what is on its way. */
  function Stream(m: Machine): seq<bool> {
    m.panel + Owed(m.sm) + DoubledWords(m.fifo + Awaited(m))
  }

  /** Buffers under the driver's hands still show what was released. */
  predicate Unspoilt(m: Machine) {
    var flight, releasing := H.InFlight(m.system), H.BeingReleased(m.system);
    && |m.released| == |m.system.started| + |releasing|
    && (flight != [] ==> m.system.started != [] && PixelsOf(m, flight[0]) == m.released[|m.system.started| - 1])
    && (releasing != [] ==> PixelsOf(m, releasing[0]) == m.released[|m.released| - 1])
  }

  predicate Loaded(f: H.Format, m: Machine) {
    m.system.writing.BeforeTrigger? ==> m.system.pusher.dma.reload == f.width * 2 / 4
  }

  predicate AllBacked(f: H.Format, pictures: seq<seq<U16>>) {
    forall i :: 0 <= i < |pictures| ==> f.width * f.height <= |pictures[i]|
  }

  predicate Backed(f: H.Format, m: Machine) {
    |m.pixels| == m.system.pool.size && AllBacked(f, m.pixels) && AllBacked(f, m.released)
  }

  predicate Streams(f: H.Format, m: Machine) {
    Consistent(m.sm) && Stream(m) == DoubledWords(S.AllWords(FramesOf(f, Started(m))))
  }

  /** The machine's memory and its records. */
  predicate Recorded(f: H.Format, m: Machine) {
    Unspoilt(m) && Loaded(f, m) && Backed(f, m)
  }

  predicate Invariant(f: H.Format, m: Machine) {
    Recorded(f, m) && Streams(f, m)
  }

  lemma SameStream(f: H.Format, m: Machine, t: Machine)
    requires Streams(f, m) && t.sm == m.sm && t.panel == m.panel
    requires t.fifo + Awaited(t) == m.fifo + Awaited(m) && Started(t) == Started(m)
    ensures Streams(f, t)
  {
    hide Owed, Consistent, DoubledWords, S.AllWords, FramesOf, Awaited, Started;
  }

  // ---- Drawing ----

  /** A held buffer is neither in flight nor being released, if buffers are apart. */
  lemma DrawnIsElsewhere(s: H.System, i: nat)
    requires H.Apart(s) && i < |s.held|
    ensures forall b :: b in H.InFlight(s) + H.BeingReleased(s) ==> b.index != s.held[i].index
  {
    var before := H.InFlight(s) + H.BeingReleased(s);
    var out := before + s.held + H.BeingGot(s);
    hide H.InFlight, H.BeingReleased, H.BeingGot;
    forall k | 0 <= k < |before|
      ensures before[k].index != s.held[i].index
    {
      assert out[k] == before[k] && out[|before| + i] == s.held[i];
    }
  }

  lemma DrawLeaves(f: H.Format, m: Machine, e: Event)
    requires Backed(f, m) && H.Apart(m.system) && e.Draws? && Possible(m, e)
    ensures var t := Apply(f, m, e);
            && t == m.(pixels := t.pixels) && Backed(f, t)
            && forall b :: b in H.InFlight(m.system) + H.BeingReleased(m.system) ==> PixelsOf(t, b) == PixelsOf(m, b)
  {
    DrawnIsElsewhere(m.system, e.position);
    hide H.Apart, H.InFlight, H.BeingReleased;
  }

  lemma DrawKeeps(f: H.Format, m: Machine, e: Event)
    requires Invariant(f, m) && H.Apart(m.system) && e.Draws? && Possible(m, e)
    ensures Invariant(f, Apply(f, m, e))
  {
    hide Streams, Backed, H.Apart, Apply, PixelsOf, H.InFlight, H.BeingReleased, S.ToCome;
    DrawLeaves(f, m, e);
    hide Possible;
    var t, flight, releasing := Apply(f, m, e), H.InFlight(m.system), H.BeingReleased(m.system);
    assert flight != [] ==> flight[0] in flight + releasing;
    assert releasing != [] ==> releasing[0] in flight + releasing;
    SameStream(f, m, t);
  }

  // ---- The panel ----

  lemma ExecuteKeeps(f: H.Format, m: Machine)
    requires Invariant(f, m) && Possible(m, Executes)
    ensures Invariant(f, Apply(f, m, Executes))
  {
    hide Step, Owed, Consistent, DoubledWords, DoubledWord, S.ToCome, S.AllWords, FramesOf, Recorded;
    StepPaysWhatIsOwed(m.sm, m.fifo);
    var o, t := Step(m.sm, m.fifo).value, Apply(f, m, Executes);
    assert Awaited(t) == Awaited(m);
    SameButPanel(f, m, t);
    if m.sm.pc == 0 {
      S.PullKeepsStream(m.panel, m.sm, m.fifo, o, Awaited(m));
    } else {
      assert (m.panel + o.sampled) + Owed(o.sm) == m.panel + (o.sampled + Owed(o.sm));
    }
  }

  lemma SameButPanel(f: H.Format, m: Machine, t: Machine)
    requires t.system == m.system && t.pixels == m.pixels && t.released == m.released && Recorded(f, m)
    ensures Recorded(f, t)
  {
  }

  // ---- The hand-off ----

  /** Steps of the thread that leave the frame in flight alone. */
  predicate IsThreadStep(e: H.Event) {
    !e.DmaTransfers? && !e.Interrupt? && !e.TriggerDma?
  }

  lemma ThreadKeepsFlight(f: H.Format, s: H.System, e: H.Event)
    requires H.Invariant(f, s) && H.Possible(s, e) && IsThreadStep(e)
    ensures var t := H.Apply(f, s, e);
            && H.InFlight(t) == H.InFlight(s) && t.started == s.started
            && (H.InFlight(s) != [] ==> t.pusher == s.pusher)
            && t.pool.size == s.pool.size
  {
    hide P.Numbered, H.FramesOk;
  }

  lemma ThreadKeepsReleasing(f: H.Format, s: H.System, e: H.Event)
    requires H.Invariant(f, s) && H.Possible(s, e) && IsThreadStep(e)
    ensures e.BeginRelease? ==> H.BeingReleased(s) == [] && e.position < |s.held|
    ensures H.BeingReleased(H.Apply(f, s, e)) ==
            if e.BeginRelease? then [s.held[e.position]] else H.BeingReleased(s)
    ensures H.Apply(f, s, e).writing.BeforeTrigger? ==>
              H.Apply(f, s, e).pusher.dma.reload == f.width * 2 / 4 || s.writing.BeforeTrigger?
    ensures s.writing.BeforeTrigger? ==> H.Apply(f, s, e).pusher.dma.reload == s.pusher.dma.reload
  {
    hide P.Numbered, H.FramesOk;
  }

  /** A buffer the application holds is one of the pool's. */
  lemma HeldIsInPool(f: H.Format, s: H.System, i: nat)
    requires H.Invariant(f, s) && i < |s.held|
    ensures s.held[i].index < s.pool.size
  {
    hide H.DriverOk, H.FramesOk, H.InFlight, H.BeingReleased, H.BeingGot;
    var before := H.InFlight(s) + H.BeingReleased(s);
    assert H.LedgerOf(s).out[|before| + i] == s.held[i];
  }

  lemma ThreadStepKeeps(f: H.Format, m: Machine, h: H.Event)
    requires H.Invariant(f, m.system) && Invariant(f, m) && Possible(m, Steps(h)) && IsThreadStep(h)
    ensures Invariant(f, Apply(f, m, Steps(h)))
  {
    hide Streams;
    ThreadStepKeepsRecords(f, m, h);
    ThreadKeepsFlight(f, m.system, h);
    hide H.Invariant, H.Possible, H.Apply, H.InFlight, H.BeingReleased, S.ToCome;
    SameStream(f, m, Apply(f, m, Steps(h)));
  }

  lemma ThreadStepKeepsRecords(f: H.Format, m: Machine, h: H.Event)
    requires H.Invariant(f, m.system) && Recorded(f, m) && Possible(m, Steps(h)) && IsThreadStep(h)
    ensures var t := Apply(f, m, Steps(h));
            Recorded(f, t) && Started(t) == Started(m) && t.pixels == m.pixels && t.fifo == m.fifo
  {
    hide H.Invariant, H.Possible, H.Apply, H.InFlight, H.BeingReleased;
    ThreadKeepsFlight(f, m.system, h);
    ThreadKeepsReleasing(f, m.system, h);
    if h.BeginRelease? {
      HeldIsInPool(f, m.system, h.position);
    }
  }

  /** Transfers happen only in a frame, and from its buffer. */
  lemma TransferIsInFlight(f: H.Format, s: H.System)
    requires H.Invariant(f, s) && H.Possible(s, H.DmaTransfers)
    ensures var t, flight := H.Apply(f, s, H.DmaTransfers), H.InFlight(s);
            && t == s.(pusher := s.pusher.(dma := s.pusher.dma.Transfer()))
            && flight != [] && s.pusher.dma.buffer == Some(flight[0].index)
            && 0 <= s.pusher.scanline <= S.LastLine(s.pusher.fb)
            && H.InFlight(t) == flight && H.BeingReleased(t) == H.BeingReleased(s)
  {
    hide P.Numbered, H.FramesOk;
  }

  lemma TransferKeeps(f: H.Format, m: Machine)
    requires H.Invariant(f, m.system) && Invariant(f, m) && Possible(m, Steps(H.DmaTransfers))
    ensures Invariant(f, Apply(f, m, Steps(H.DmaTransfers)))
  {
    hide Streams;
    TransferIsInFlight(f, m.system);
    var t, flight := Apply(f, m, Steps(H.DmaTransfers)), H.InFlight(m.system);
    hide H.Invariant, H.Apply, H.InFlight, H.BeingReleased, S.ToCome, S.LastLine, WordAt;
    S.TransferTakesNext(PixelsOf(m, flight[0]), m.system.pusher);
    Regroup(m.fifo, [WordAt(DmaMemory(m), m.system.pusher.dma.offset)], Awaited(t));
    SameStream(f, m, t);
  }

  /** An interrupt is the channel's only in a frame, and ends the flight if it completes it. */
  lemma InterruptIsInFlight(f: H.Format, s: H.System)
    requires H.Invariant(f, s)
    ensures var t, p := H.HandleInterrupt(s), s.pusher;
            && t.pusher == OnIrq(p).0 && t.started == s.started && t.pool.size == s.pool.size
            && t.writing == s.writing
            && (if p.dma.irq then
                  && H.InFlight(s) != [] && p.dma.count == 0 && p.callback.Some?
                  && 0 <= p.scanline <= S.LastLine(p.fb)
                else t.pusher == p.(fireCount := p.fireCount + 1) && OnIrq(p).1.None?)
            && H.InFlight(t) == if OnIrq(p).1.Some? then [] else H.InFlight(s)
  {
    hide P.Numbered, H.FramesOk, RowOffset;
  }

  lemma InterruptKeeps(f: H.Format, m: Machine)
    requires H.Invariant(f, m.system) && Invariant(f, m)
    ensures Possible(m, Steps(H.Interrupt)) && Invariant(f, Apply(f, m, Steps(H.Interrupt)))
  {
    hide Streams;
    H.InterruptApplies(f, m.system);
    var t := Apply(f, m, Steps(H.Interrupt));
    assert t == m.(system := H.HandleInterrupt(m.system));
    hide H.Invariant, H.Apply, Apply, H.HandleInterrupt, Recorded;
    InterruptKeepsRecords(f, m, t);
    InterruptKeepsAwaited(f, m, t);
    hide Awaited, Started;
    SameStream(f, m, t);
  }

  lemma InterruptKeepsRecords(f: H.Format, m: Machine, t: Machine)
    requires H.Invariant(f, m.system) && Recorded(f, m) && t == m.(system := H.HandleInterrupt(m.system))
    ensures Recorded(f, t) && Started(t) == Started(m)
  {
    InterruptIsInFlight(f, m.system);
    assert H.BeingReleased(t.system) == H.BeingReleased(m.system);
    hide H.Invariant, H.HandleInterrupt, H.InFlight, H.BeingReleased, S.LastLine;
  }

  lemma InterruptKeepsAwaited(f: H.Format, m: Machine, t: Machine)
    requires H.Invariant(f, m.system) && t == m.(system := H.HandleInterrupt(m.system))
    ensures Awaited(t) == Awaited(m)
  {
    InterruptIsInFlight(f, m.system);
    hide H.Invariant, H.HandleInterrupt, H.InFlight, OnIrq, S.LastLine;
    var p, flight := m.system.pusher, H.InFlight(m.system);
    if p.dma.irq {
      hide S.ToCome;
      S.HandlerKeepsWords(PixelsOf(m, flight[0]), p);
    }
  }

  lemma TriggerStartsFlight(f: H.Format, s: H.System)
    requires H.Invariant(f, s) && s.writing.BeforeTrigger?
    ensures var t := H.Apply(f, s, H.TriggerDma);
            && t == s.(pusher := TriggerFirst(s.pusher), writing := H.NotWriting,
                       started := s.started + [s.writing.buffer], interrupts := 0)
            && H.InFlight(s) == [] && H.BeingReleased(s) == [s.writing.buffer]
            && H.InFlight(t) == [s.writing.buffer] && H.BeingReleased(t) == []
            && s.pusher.scanline == 0 && s.pusher.fb == H.HandleOf(f, s.writing.buffer.index)
  {
    hide P.Numbered, H.FramesOk;
  }

  lemma TriggerKeeps(f: H.Format, m: Machine)
    requires H.Invariant(f, m.system) && Invariant(f, m) && Possible(m, Steps(H.TriggerDma))
    ensures Invariant(f, Apply(f, m, Steps(H.TriggerDma)))
  {
    hide Streams;
    TriggerKeepsRecords(f, m);
    hide H.Invariant, H.Apply, Apply, Recorded, Started, Awaited;
    StreamGrows(f, m, Apply(f, m, Steps(H.TriggerDma)), PixelsOf(m, m.system.writing.buffer));
  }

  lemma TriggerKeepsRecords(f: H.Format, m: Machine)
    requires H.Invariant(f, m.system) && Recorded(f, m) && Possible(m, Steps(H.TriggerDma))
    ensures var t, picture := Apply(f, m, Steps(H.TriggerDma)), PixelsOf(m, m.system.writing.buffer);
            && Recorded(f, t) && t.sm == m.sm && t.panel == m.panel && t.fifo == m.fifo
            && Awaited(m) == [] && Awaited(t) == FrameWords(picture, f.width, f.height)
            && Started(t) == Started(m) + [picture]
  {
    hide H.Invariant, H.Apply, H.InFlight, H.BeingReleased, WordsFrom, Later;
    TriggerStartsFlight(f, m.system);
  }

  lemma StreamGrows(f: H.Format, m: Machine, t: Machine, picture: seq<U16>)
    requires Streams(f, m) && t.sm == m.sm && t.panel == m.panel && t.fifo == m.fifo
    requires Awaited(m) == [] && Awaited(t) == FrameWords(picture, f.width, f.height)
    requires Started(t) == Started(m) + [picture]
    ensures Streams(f, t)
  {
    hide Owed, Consistent, DoubledWords, S.AllWords, FramesOf, Awaited, Started, FrameWords;
    OneMoreFrame(f, Started(m), picture);
    assert m.fifo + [] == m.fifo;
    DoubledWordsConcat(m.fifo, Awaited(t));
    Regroup(m.panel + Owed(m.sm), DoubledWords(m.fifo), DoubledWords(Awaited(t)));
  }

  lemma OneMoreFrame(f: H.Format, pictures: seq<seq<U16>>, picture: seq<U16>)
    ensures DoubledWords(S.AllWords(FramesOf(f, pictures + [picture])))
         == DoubledWords(S.AllWords(FramesOf(f, pictures))) + DoubledWords(FrameWords(picture, f.width, f.height))
  {
    hide DoubledWords, FrameWords;
    var frame := S.Frame(picture, H.HandleOf(f, 0), |pictures|, []);
    assert FramesOf(f, pictures + [picture]) == FramesOf(f, pictures) + [frame];
    AllWordsMore(FramesOf(f, pictures), frame);
    DoubledWordsConcat(S.AllWords(FramesOf(f, pictures)), FrameWords(picture, f.width, f.height));
  }

  lemma {:induction false} AllWordsMore(frames: seq<S.Frame>, g: S.Frame)
    ensures S.AllWords(frames + [g]) == S.AllWords(frames) + FrameWords(g.mem, g.fb.width, g.fb.height)
  {
    hide FrameWords;
    if frames == [] {
      assert S.AllWords([g]) == FrameWords(g.mem, g.fb.width, g.fb.height) + S.AllWords([]);
    } else {
      assert (frames + [g])[1..] == frames[1..] + [g];
      AllWordsMore(frames[1..], g);
    }
  }

  // ---- Whole runs ----

  lemma EventKeeps(f: H.Format, m: Machine, e: Event)
    requires H.Invariant(f, m.system) && H.Apart(m.system) && Invariant(f, m)
    ensures Invariant(f, Next(f, m, e))
  {
    hide H.Invariant, H.Apart, Invariant, Apply, Possible;
    if Possible(m, e) {
      match e
      case Draws(_, _) => DrawKeeps(f, m, e);
      case Executes => ExecuteKeeps(f, m);
      case Steps(h) =>
        if h == H.DmaTransfers {
          TransferKeeps(f, m);
        } else if h == H.Interrupt {
          InterruptKeeps(f, m);
        } else if h == H.TriggerDma {
          TriggerKeeps(f, m);
        } else {
          ThreadStepKeeps(f, m, h);
        }
    }
  }

  /** This machine's steps are the hand-off's. */
  lemma SystemStep(f: H.Format, m: Machine, e: Event)
    ensures Next(f, m, e).system ==
            if e.Steps? && Possible(m, e) then H.Next(f, m.system, e.event) else m.system
  {
    hide H.Apply, Step, WordAt;
  }

  lemma {:induction false} RunIsHandoffRun(f: H.Format, m: Machine, events: seq<Event>)
    ensures Run(f, m, events).system == H.Run(f, m.system, HandoffEvents(f, m, events))
    decreases |events|
  {
    hide Next, Possible, H.Next;
    if events == [] {
    } else {
      SystemStep(f, m, events[0]);
      RunIsHandoffRun(f, Next(f, m, events[0]), events[1..]);
      var rest := HandoffEvents(f, Next(f, m, events[0]), events[1..]);
      if events[0].Steps? && Possible(m, events[0]) {
        H.RunCons(f, m.system, events[0].event, rest);
      }
    }
  }

  lemma {:induction false} RunKeeps(f: H.Format, m: Machine, events: seq<Event>)
    requires H.Invariant(f, m.system) && P.Recent(H.LedgerOf(m.system)) && Invariant(f, m)
    requires H.ReturnedInTime(f, m.system, HandoffEvents(f, m, events))
    ensures var t := Run(f, m, events);
            H.Invariant(f, t.system) && P.Recent(H.LedgerOf(t.system)) && Invariant(f, t)
    decreases |events|
  {
    if events == [] {
    } else {
      var e, n := events[0], Next(f, m, events[0]);
      var rest := HandoffEvents(f, n, events[1..]);
      hide H.Invariant, H.LedgerOf, P.Recent, P.LastRoundReturned, H.Apart, Invariant, Possible, Next, H.Next;
      H.RecentIsApart(f, m.system);
      EventKeeps(f, m, e);
      SystemStep(f, m, e);
      if e.Steps? && Possible(m, e) {
        assert ([e.event] + rest)[1..] == rest;
        H.InTimeStepKeeps(f, m.system, e.event);
      }
      RunKeeps(f, n, events[1..]);
    }
  }

  // ---- What was drawn ----

  /** Drawing sets the pixels of its buffer, and no others. */
  lemma DrawsMeans(f: H.Format, m: Machine, i: nat, picture: seq<U16>)
    requires Possible(m, Draws(i, picture)) && m.system.held[i].index < |m.pixels|
    ensures var t, b := Next(f, m, Draws(i, picture)), m.system.held[i];
            && PixelsOf(t, b) == picture && |t.pixels| == |m.pixels|
            && forall k :: 0 <= k < |m.pixels| && k != b.index ==> t.pixels[k] == m.pixels[k]
  {
  }

  /** The last picture drawn on buffer `index` in a run, or what the buffer held at its start. */
  function LastDrawn(f: H.Format, m: Machine, events: seq<Event>, index: nat): seq<U16>
    decreases |events|
  {
    if events == [] then PixelsOf(m, P.Buffer(index, 0))
    else
      var front, e := events[..|events| - 1], events[|events| - 1];
      var before := Run(f, m, front);
      if e.Draws? && Possible(before, e) && before.system.held[e.position].index == index then e.picture
      else LastDrawn(f, m, front, index)
  }

  /** The last pictures drawn on the buffers that a run releases, each at its release. */
  function DrawnForRelease(f: H.Format, m: Machine, events: seq<Event>): seq<seq<U16>>
    decreases |events|
  {
    if events == [] then []
    else
      var front, e := events[..|events| - 1], events[|events| - 1];
      var before := Run(f, m, front);
      if e.Steps? && e.event.BeginRelease? && Possible(before, e)
      then DrawnForRelease(f, m, front) + [LastDrawn(f, m, front, before.system.held[e.event.position].index)]
      else DrawnForRelease(f, m, front)
  }

  lemma {:induction false} RunMore(f: H.Format, m: Machine, events: seq<Event>, e: Event)
    ensures Run(f, m, events + [e]) == Next(f, Run(f, m, events), e)
    decreases |events|
  {
    hide Next;
    if events == [] {
      assert (events + [e])[1..] == [];
    } else {
      assert (events + [e])[1..] == events[1..] + [e];
      RunMore(f, Next(f, m, events[0]), events[1..], e);
    }
  }

  /** Only drawing changes pixels. */
  lemma StepLeavesPixels(f: H.Format, m: Machine, e: Event)
    ensures |Next(f, m, e).pixels| == |m.pixels|
    ensures !e.Draws? || !Possible(m, e) ==> Next(f, m, e).pixels == m.pixels
    ensures Next(f, m, e).released ==
            if e.Steps? && e.event.BeginRelease? && Possible(m, e)
            then m.released + [PixelsOf(m, m.system.held[e.event.position])] else m.released
  {
    hide H.Apply, Step, WordAt;
  }

  /** Every buffer holds what was last drawn on it. */
  lemma {:induction false} PixelsAreLastDrawn(f: H.Format, m: Machine, events: seq<Event>, index: nat)
    requires index < |m.pixels|
    ensures |Run(f, m, events).pixels| == |m.pixels|
    ensures Run(f, m, events).pixels[index] == LastDrawn(f, m, events, index)
    decreases |events|
  {
    if events == [] {
    } else {
      var front, e := events[..|events| - 1], events[|events| - 1];
      assert events == front + [e];
      var before := Run(f, m, front);
      RunMore(f, m, front, e);
      PixelsAreLastDrawn(f, m, front, index);
      StepLeavesPixels(f, before, e);
      hide Run, Next, Possible;
      if e.Draws? && Possible(before, e) {
        DrawAt(f, before, e, index);
      }
    }
  }

  lemma DrawAt(f: H.Format, m: Machine, e: Event, index: nat)
    requires e.Draws? && Possible(m, e) && index < |m.pixels|
    ensures |Next(f, m, e).pixels| == |m.pixels|
    ensures Next(f, m, e).pixels[index] ==
            if m.system.held[e.position].index == index then e.picture else m.pixels[index]
  {
    if m.system.held[e.position].index < |m.pixels| {
      DrawsMeans(f, m, e.position, e.picture);
    }
  }

  /** What is released is what was last drawn. */
  lemma {:induction false} ReleasedIsDrawn(f: H.Format, m: Machine, events: seq<Event>)
    requires H.Invariant(f, m.system) && |m.pixels| == m.system.pool.size
    ensures Run(f, m, events).released == m.released + DrawnForRelease(f, m, events)
    decreases |events|
  {
    if events == [] {
    } else {
      var front, e := events[..|events| - 1], events[|events| - 1];
      assert events == front + [e];
      var before := Run(f, m, front);
      RunMore(f, m, front, e);
      ReleasedIsDrawn(f, m, front);
      StepLeavesPixels(f, before, e);
      if e.Steps? && e.event.BeginRelease? && Possible(before, e) {
        var b := before.system.held[e.event.position];
        RunIsHandoffRun(f, m, front);
        H.RunKeepsInvariant(f, m.system, HandoffEvents(f, m, front));
        HeldIsInPool(f, before.system, e.event.position);
        PixelsAreLastDrawn(f, m, front, b.index);
      }
      hide Run, Next, Possible, H.Invariant;
    }
  }

  /** No frame is in flight, and the state machine waits for a word that is not there. */
  predicate Drained(m: Machine) {
    H.InFlight(m.system) == [] && m.fifo == [] && m.sm.pc == 0
  }

  lemma FramesHaveFormat(f: H.Format, pictures: seq<seq<U16>>)
    ensures forall g :: g in FramesOf(f, pictures) ==> g.fb.width == f.width && g.fb.height == f.height
  {
    assert H.HandleOf(f, 0).width == f.width && H.HandleOf(f, 0).height == f.height;
    hide H.HandleOf;
  }

  lemma FramesAreBacked(f: H.Format, pictures: seq<seq<U16>>)
    requires AllBacked(f, pictures)
    ensures forall g :: g in FramesOf(f, pictures) ==>
              S.Backed(g) && g.fb.width == f.width && g.fb.height == f.height
  {
    var frames := FramesOf(f, pictures);
    forall k | 0 <= k < |frames|
      ensures S.Backed(frames[k]) && frames[k].fb.width == f.width && frames[k].fb.height == f.height
    {
      assert frames[k] == S.Frame(pictures[k], H.HandleOf(f, 0), k, []);
    }
  }

  lemma InitialIsInvariant(f: H.Format, pixels: seq<seq<U16>>, sm: Sm)
    requires AllBacked(f, pixels) && Consistent(sm) && sm.pc == 0
    ensures Invariant(f, Initial(pixels, sm))
  {
    hide Step;
    assert FramesOf(f, []) == [];
    assert Owed(sm) == [];
  }

  /** Whatever the application draws, and in every interleaving of drawing, hand-off, DMA,
      interrupts and PIO: if each get finds the buffer of one round before back, the panel
      samples the words of the frames in order, each of its picture as it was when it was
      released, and all of them by the time the machine is drained. */
  lemma PicturesReachThePanel(f: H.Format, pixels: seq<seq<U16>>, sm: Sm, events: seq<Event>)
    requires 0 < |pixels| && AllBacked(f, pixels) && Consistent(sm) && sm.pc == 0
    requires H.ReturnedInTime(f, H.Initial(|pixels|), HandoffEvents(f, Initial(pixels, sm), events))
    ensures var t := Run(f, Initial(pixels, sm), events);
            var frames := FramesOf(f, Started(t));
            && |frames| == |t.system.started| && (forall g :: g in frames ==> S.Backed(g))
            && t.panel <= DoubledWords(S.AllWords(frames))
            && (Drained(t) ==> t.panel == DoubledWords(S.AllWords(frames)))
  {
    var m := Initial(pixels, sm);
    InitialIsInvariant(f, pixels, sm);
    H.InitialIsInvariant(f, |pixels|);
    RunKeeps(f, m, events);
    InvariantMeans(f, Run(f, m, events));
  }

  lemma InvariantMeans(f: H.Format, t: Machine)
    requires Invariant(f, t)
    ensures var frames := FramesOf(f, Started(t));
            && |frames| == |t.system.started| && (forall g :: g in frames ==> S.Backed(g))
            && t.panel <= DoubledWords(S.AllWords(frames))
            && (Drained(t) ==> t.panel == DoubledWords(S.AllWords(frames)))
  {
    FramesAreBacked(f, Started(t));
    if Drained(t) {
      DrainedStream(t);
    }
    hide H.InFlight, H.BeingReleased, Awaited, S.AllWords, S.Backed, FramesOf, Backed, Owed, DoubledWords, Drained;
  }

  lemma DrainedStream(t: Machine)
    requires Drained(t)
    ensures Stream(t) == t.panel
  {
    assert Owed(t.sm) == [] && t.fifo + Awaited(t) == [];
    hide Owed, Drained;
    assert t.panel + [] + [] == t.panel;
  }

  /** The same for pictures: the panel then has the doubled pictures one after another if and
      only if nothing was shown or the format can be doubled. */
  lemma PanelHasThePictures(f: H.Format, pixels: seq<seq<U16>>, sm: Sm, events: seq<Event>)
    requires 0 < |pixels| && AllBacked(f, pixels) && Consistent(sm) && sm.pc == 0
    requires H.ReturnedInTime(f, H.Initial(|pixels|), HandoffEvents(f, Initial(pixels, sm), events))
    requires Drained(Run(f, Initial(pixels, sm), events))
    ensures var t := Run(f, Initial(pixels, sm), events);
            var frames := FramesOf(f, Started(t));
            && (forall g :: g in frames ==> S.Backed(g))
            && (t.panel == PixelBits(S.AllPixels(frames)) <==>
                t.system.started == [] || ShownExactly(f.width, f.height))
  {
    var t := Run(f, Initial(pixels, sm), events);
    PicturesReachThePanel(f, pixels, sm, events);
    hide Run, Drained, H.ReturnedInTime, Initial, HandoffEvents, Started;
    FormatDecides(f, Started(t));
  }

  lemma FormatDecides(f: H.Format, pictures: seq<seq<U16>>)
    requires forall g :: g in FramesOf(f, pictures) ==> S.Backed(g)
    ensures DoubledWords(S.AllWords(FramesOf(f, pictures))) == PixelBits(S.AllPixels(FramesOf(f, pictures))) <==>
            pictures == [] || ShownExactly(f.width, f.height)
  {
    var frames := FramesOf(f, pictures);
    assert |frames| == |pictures|;
    FramesHaveFormat(f, pictures);
    hide FramesOf, DoubledWords, S.AllWords, S.AllPixels, PixelBits, ShownExactly, RowsExist, S.Backed;
    if RowsExist(f.width, f.height) {
      S.AllPicturesExactly(frames);
      assert pictures != [] ==> frames[0] in frames;
    } else {
      NoRows(frames);
      assert pictures != [] ==> frames[0] in frames;
      DoubledWordsLength(S.AllWords(frames));
      PixelBitsLength(S.AllPixels(frames));
    }
  }

  /** Frames without rows have words but no pixels. */
  lemma {:induction false} NoRows(frames: seq<S.Frame>)
    requires forall g :: g in frames ==> S.Backed(g) && !RowsExist(g.fb.width, g.fb.height)
    ensures S.AllPixels(frames) == []
    ensures forall g :: g in frames ==> S.AllWords(frames) != [] && !ShownExactly(g.fb.width, g.fb.height)
  {
    if frames == [] {
    } else {
      var g := frames[0];
      assert g in frames;
      NoRows(frames[1..]);
      EmptyFrame(g.mem, g.fb.width);
      DoubledPictureLength(g.mem, g.fb.width, 0);
      hide DoubledPicture, FrameWords, S.Backed;
    }
  }

  /** What was drawn reaches the panel: of the pictures last drawn on the buffers before their
      releases, those whose frames have been started, doubled, one after another; exactly if
      nothing was started or the format can be doubled. */
  lemma PanelHasWhatWasDrawn(f: H.Format, pixels: seq<seq<U16>>, sm: Sm, events: seq<Event>)
    requires 0 < |pixels| && AllBacked(f, pixels) && Consistent(sm) && sm.pc == 0
    requires H.ReturnedInTime(f, H.Initial(|pixels|), HandoffEvents(f, Initial(pixels, sm), events))
    requires Drained(Run(f, Initial(pixels, sm), events))
    ensures var t := Run(f, Initial(pixels, sm), events);
            var drawn := DrawnForRelease(f, Initial(pixels, sm), events);
            && |t.system.started| <= |drawn|
            && var frames := FramesOf(f, drawn[..|t.system.started|]);
               && (forall g :: g in frames ==> S.Backed(g))
               && (t.panel == PixelBits(S.AllPixels(frames)) <==>
                   t.system.started == [] || ShownExactly(f.width, f.height))
  {
    var m := Initial(pixels, sm);
    H.InitialIsInvariant(f, |pixels|);
    ReleasedIsDrawn(f, m, events);
    assert [] + DrawnForRelease(f, m, events) == DrawnForRelease(f, m, events);
    hide DrawnForRelease, Run, H.ReturnedInTime, HandoffEvents, FramesOf, Drained;
    PanelHasThePictures(f, pixels, sm, events);
    PicturesReachThePanel(f, pixels, sm, events);
    FramesAreAsMany(f, Started(Run(f, m, events)));
  }

  lemma FramesAreAsMany(f: H.Format, pictures: seq<seq<U16>>)
    ensures |FramesOf(f, pictures)| == |pictures|
  {
  }

  // ---- The hardware drains ----

  /** The steps that need no thread: transfers, the channel's interrupts, PIO instructions. */
  predicate IsHardware(m: Machine, e: Event) {
    && Possible(m, e)
    && match e
       case Steps(h) => h.DmaTransfers? || (h.Interrupt? && m.system.pusher.dma.irq)
       case Draws(_, _) => false
       case Executes => true
  }

  /** Work left for the hardware, in steps. */
  function HardwareWork(m: Machine): int {
    139 * |Awaited(m)| + 138 * |m.fifo| + Work(m.sm)
    + (if H.InFlight(m.system) == [] then 0 else S.LastLine(m.system.pusher.fb) + 1 - m.system.pusher.scanline)
  }

  lemma TransferIsWork(f: H.Format, m: Machine)
    requires H.Invariant(f, m.system) && Possible(m, Steps(H.DmaTransfers))
    ensures HardwareWork(Apply(f, m, Steps(H.DmaTransfers))) == HardwareWork(m) - 1
  {
    TransferIsInFlight(f, m.system);
    var t, flight := Apply(f, m, Steps(H.DmaTransfers)), H.InFlight(m.system);
    hide H.Invariant, H.Apply, H.InFlight, H.BeingReleased, S.ToCome, S.LastLine, WordAt, Work;
    S.TransferTakesNext(PixelsOf(m, flight[0]), m.system.pusher);
  }

  lemma InterruptIsWork(f: H.Format, m: Machine)
    requires H.Invariant(f, m.system) && m.system.pusher.dma.irq
    ensures Possible(m, Steps(H.Interrupt))
    ensures HardwareWork(Apply(f, m, Steps(H.Interrupt))) < HardwareWork(m)
  {
    H.InterruptApplies(f, m.system);
    InterruptIsInFlight(f, m.system);
    var t := Apply(f, m, Steps(H.Interrupt));
    assert t == m.(system := H.HandleInterrupt(m.system));
    ScanlineAdvances(m.system.pusher);
    hide H.Invariant, H.Apply, Apply, H.HandleInterrupt, H.InFlight, H.BeingReleased, OnIrq, S.ToCome, S.LastLine, Work;
    InterruptKeepsAwaited(f, m, t);
    hide Awaited;
  }

  lemma ScanlineAdvances(p: State)
    requires p.dma.irq
    ensures OnIrq(p).0.scanline == p.scanline + 1
    ensures S.LastLine(OnIrq(p).0.fb) == S.LastLine(p.fb)
  {
    hide RowOffset;
  }

  lemma ExecuteIsWork(f: H.Format, m: Machine)
    requires Consistent(m.sm) && Possible(m, Executes)
    ensures HardwareWork(Apply(f, m, Executes)) < HardwareWork(m)
  {
    StepPaysWhatIsOwed(m.sm, m.fifo);
    StepDoesWork(m.sm, m.fifo);
    var t := Apply(f, m, Executes);
    hide Step, Work, Owed, Consistent, S.ToCome, S.LastLine, H.InFlight;
    assert Awaited(t) == Awaited(m);
  }

  lemma HardwareIsWork(f: H.Format, m: Machine, e: Event)
    requires H.Invariant(f, m.system) && Invariant(f, m) && IsHardware(m, e)
    ensures HardwareWork(Next(f, m, e)) < HardwareWork(m)
  {
    hide H.Invariant, Streams, Recorded, HardwareWork, Apply;
    match e
    case Executes =>
      ConsistentIn(f, m);
      ExecuteIsWork(f, m);
    case Steps(h) =>
      if h.DmaTransfers? {
        TransferIsWork(f, m);
      } else {
        InterruptIsWork(f, m);
      }
  }

  lemma ConsistentIn(f: H.Format, m: Machine)
    requires Invariant(f, m)
    ensures Consistent(m.sm)
  {
  }

  lemma WorkIsNatural(f: H.Format, m: Machine)
    requires H.Invariant(f, m.system) && Invariant(f, m)
    ensures 0 <= HardwareWork(m)
  {
    hide H.Invariant, Invariant, Step, Work, Consistent, H.InFlight, S.LastLine, Awaited;
    ConsistentIn(f, m);
    StepDoesWork(m.sm, [m.sm.osr]);
    if H.InFlight(m.system) != [] {
      FlightIsInside(f, m.system);
    }
  }

  /** A frame in flight is being transferred, or about to be interrupted for. */
  lemma FlightIsInside(f: H.Format, s: H.System)
    requires H.Invariant(f, s) && H.InFlight(s) != []
    ensures 0 <= s.pusher.scanline <= S.LastLine(s.pusher.fb)
    ensures s.pusher.dma.irq || 0 < s.pusher.dma.count
  {
    hide P.Numbered, H.FramesOk;
  }

  /** If the hardware has nothing to do, the machine is drained. */
  lemma NothingLeftIsDrained(f: H.Format, m: Machine)
    requires H.Invariant(f, m.system) && Invariant(f, m) && forall e :: !IsHardware(m, e)
    ensures Drained(m)
  {
    hide H.Invariant, Invariant, Step, Owed, Consistent, H.InFlight, S.LastLine;
    ConsistentIn(f, m);
    StepPaysWhatIsOwed(m.sm, m.fifo);
    assert !IsHardware(m, Executes);
    assert !IsHardware(m, Steps(H.DmaTransfers)) && !IsHardware(m, Steps(H.Interrupt));
    if H.InFlight(m.system) != [] {
      FlightIsInside(f, m.system);
    }
  }

  /** From every state the hardware alone drains the machine, in at most as many steps as there
      is work. */
  lemma {:induction false} HardwareDrains(f: H.Format, m: Machine, limit: nat) returns (events: seq<Event>)
    requires H.Invariant(f, m.system) && P.Recent(H.LedgerOf(m.system)) && Invariant(f, m)
    requires HardwareWork(m) <= limit
    ensures |events| <= limit && Drained(Run(f, m, events)) && Invariant(f, Run(f, m, events))
    ensures Run(f, m, events).system.started == m.system.started && Run(f, m, events).released == m.released
    decreases limit
  {
    hide H.Invariant, H.LedgerOf, P.Recent, Invariant, HardwareWork, IsHardware, Next, Drained;
    if e :| IsHardware(m, e) {
      HardwareIsWork(f, m, e);
      HardwareKeeps(f, m, e);
      WorkIsNatural(f, Next(f, m, e));
      var rest := HardwareDrains(f, Next(f, m, e), limit - 1);
      events := [e] + rest;
      assert events[1..] == rest;
    } else {
      events := [];
      NothingLeftIsDrained(f, m);
    }
  }

  lemma HardwareKeeps(f: H.Format, m: Machine, e: Event)
    requires H.Invariant(f, m.system) && P.Recent(H.LedgerOf(m.system)) && Invariant(f, m) && IsHardware(m, e)
    ensures var t := Next(f, m, e);
            && H.Invariant(f, t.system) && P.Recent(H.LedgerOf(t.system)) && Invariant(f, t)
            && t.system.started == m.system.started && t.released == m.released
  {
    hide H.Invariant, H.LedgerOf, P.Recent, H.Apart, Invariant, Next, Possible, P.LastRoundReturned;
    H.RecentIsApart(f, m.system);
    EventKeeps(f, m, e);
    SystemStep(f, m, e);
    if e.Steps? {
      H.InTimeStepKeeps(f, m.system, e.event);
      HardwareStartsNothing(f, m.system, e.event);
    }
    StepLeavesPixels(f, m, e);
  }

  lemma HardwareStartsNothing(f: H.Format, s: H.System, h: H.Event)
    requires h.DmaTransfers? || h.Interrupt?
    ensures H.Next(f, s, h).started == s.started
  {
    hide OnIrq;
  }

  /** So every run in time can be continued to where the panel has what was drawn. */
  lemma EveryRunCanDrain(f: H.Format, pixels: seq<seq<U16>>, sm: Sm, events: seq<Event>) returns (more: seq<Event>)
    requires 0 < |pixels| && AllBacked(f, pixels) && Consistent(sm) && sm.pc == 0
    requires H.ReturnedInTime(f, H.Initial(|pixels|), HandoffEvents(f, Initial(pixels, sm), events))
    ensures var t := Run(f, Initial(pixels, sm), events);
            var end := Run(f, t, more);
            && Drained(end) && end.system.started == t.system.started && end.released == t.released
            && end.panel == DoubledWords(S.AllWords(FramesOf(f, Started(end))))
  {
    var m := Initial(pixels, sm);
    var t := Run(f, m, events);
    InitialIsInvariant(f, pixels, sm);
    H.InitialIsInvariant(f, |pixels|);
    hide H.Invariant, H.LedgerOf, H.ReturnedInTime, Invariant, HardwareWork, Run, Drained;
    RunKeeps(f, m, events);
    WorkIsNatural(f, t);
    more := HardwareDrains(f, t, HardwareWork(t));
    InvariantMeans(f, Run(f, t, more));
  }
}
