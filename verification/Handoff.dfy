/** The hand-off of framebuffers between one application thread, the pool and the
    interrupt-driven pusher, with every interleaving of the thread's steps and interrupts. */
module Handoff {
  import opened Framebuffers
  import opened Pusher
  import P = Pool

  /** Where the application thread is inside Display::ReleaseFramebuffer, and with which buffer:
      in WriteFramebuffer's busy-wait, or before the next of its assignments. */
  datatype Writing =
    | NotWriting
    | Waiting(buffer: P.Buffer)
    | BeforeCallback(buffer: P.Buffer)
    | BeforeFramebuffer(buffer: P.Buffer)
    | BeforeReset(buffer: P.Buffer)
    | BeforeTrigger(buffer: P.Buffer)

  /** `gets` counts the gets that are over and `held` lists the buffers the application draws
      on. `started` and `finished` record the frames begun (by buffer) and completed (framebuffer
      and callback passed back, and interrupts taken); `interrupts` counts this channel's
      interrupts since the frame began. */
  datatype System = System(
    pool: P.Pool, gets: nat, held: seq<P.Buffer>, writing: Writing, pusher: State,
    started: seq<P.Buffer>, finished: seq<(Handle, nat, nat)>, interrupts: nat)

  /** The application may release any buffer it holds. */
  datatype Event =
    | GetAcquires | GetTakesIndex | GetWrapsIndex
    | BeginRelease(position: nat) | EndWait | StoreCallback | StoreFramebuffer | ResetScanline | TriggerDma
    | DmaTransfers
    | Interrupt

  /** What all framebuffers of the pool have in common. */
  datatype Format = Format(width: U16, height: U16, rowBytes: U16)

  function HandleOf(f: Format, index: nat): Handle {
    Handle(Some(index), Rgb565, f.width, f.height, f.rowBytes)
  }

  function Initial(size: nat): System {
    System(P.Initial(size), 0, [], NotWriting, INITIAL, [], [], 0)
  }

  predicate ThreadFree(s: System) {
    s.pool.getter.Outside? && s.writing.NotWriting?
  }

  predicate Possible(s: System, e: Event) {
    match e
    case GetAcquires => ThreadFree(s) && 0 < s.pool.permits
    case GetTakesIndex => s.pool.getter.Acquired?
    case GetWrapsIndex => s.pool.getter.Incremented?
    case BeginRelease(i) => ThreadFree(s) && i < |s.held|
    case EndWait => s.writing.Waiting? && !IsBusy(s.pusher)
    case StoreCallback => s.writing.BeforeCallback?
    case StoreFramebuffer => s.writing.BeforeFramebuffer?
    case ResetScanline => s.writing.BeforeReset?
    case TriggerDma => s.writing.BeforeTrigger?
    case DmaTransfers => 0 < s.pusher.dma.count
    case Interrupt => true
  }

  function Apply(f: Format, s: System, e: Event): System
    requires Possible(s, e)
  {
    match e
    case GetAcquires => s.(pool := P.Acquire(s.pool))
    case GetTakesIndex => s.(pool := P.TakeIndex(s.pool))
    case GetWrapsIndex =>
      s.(pool := P.WrapIndex(s.pool), held := s.held + [P.Buffer(s.pool.getter.index, s.gets)], gets := s.gets + 1)
    case BeginRelease(i) => s.(held := s.held[..i] + s.held[i + 1..], writing := Waiting(s.held[i]))
    case EndWait => s.(writing := BeforeCallback(s.writing.buffer))
    case StoreCallback =>
      s.(pusher := SetCallback(s.pusher, |s.started|), writing := BeforeFramebuffer(s.writing.buffer))
    case StoreFramebuffer =>
      s.(pusher := SetFramebuffer(s.pusher, HandleOf(f, s.writing.buffer.index)),
         writing := BeforeReset(s.writing.buffer))
    case ResetScanline => s.(pusher := ResetScan(s.pusher), writing := BeforeTrigger(s.writing.buffer))
    case TriggerDma =>
      s.(pusher := TriggerFirst(s.pusher), writing := NotWriting,
         started := s.started + [s.writing.buffer], interrupts := 0)
    case DmaTransfers => s.(pusher := s.pusher.(dma := s.pusher.dma.Transfer()))
    case Interrupt => HandleInterrupt(s)
  }

  /** The shared handler runs; if the frame is done, its callback returns the buffer to the pool. */
  function HandleInterrupt(s: System): System {
    var (p, done) := OnIrq(s.pusher);
    var s := s.(pusher := p, interrupts := s.interrupts + if s.pusher.dma.irq then 1 else 0);
    if done.None? then s
    else s.(pool := P.Release(s.pool), finished := s.finished + [(done.value.0, done.value.1, s.interrupts)])
  }

  /** Events that are not possible when their turn comes are passed over. */
  function Next(f: Format, s: System, e: Event): System {
    if Possible(s, e) then Apply(f, s, e) else s
  }

  function Run(f: Format, s: System, events: seq<Event>): System
    decreases |events|
  {
    if events == [] then s else Run(f, Next(f, s, events[0]), events[1..])
  }

  // ---- What every step keeps ----

  function LastLine(f: Format): nat {
    ToU16(f.height * 2) / 2
  }

  /** The buffer of the frame being scanned out. */
  function InFlight(s: System): seq<P.Buffer> {
    if (s.writing.NotWriting? || s.writing.Waiting?) && s.pusher.callback.Some? && s.started != []
    then [s.started[|s.started| - 1]] else []
  }

  function BeingReleased(s: System): seq<P.Buffer> {
    if s.writing.NotWriting? then [] else [s.writing.buffer]
  }

  function BeingGot(s: System): seq<P.Buffer> {
    if s.pool.getter.Incremented? then [P.Buffer(s.pool.getter.index, s.gets)] else []
  }

  /** The pool as its clients together use it, with every buffer that is out. */
  function LedgerOf(s: System): P.Ledger {
    P.Ledger(s.pool, InFlight(s) + BeingReleased(s) + s.held + BeingGot(s), s.gets + |BeingGot(s)|)
  }

  predicate DmaIdle(p: State) {
    !p.dma.irq && p.dma.count == 0
  }

  /** The pusher before the first frame or after a completed one. */
  predicate PusherIdle(f: Format, p: State, first: bool) {
    && DmaIdle(p) && p.callback.None?
    && if first then p == INITIAL.(fireCount := p.fireCount)
       else p.scanline == LastLine(f) + 1 && p.fb.data.None? && p.fb.height == f.height
  }

  /** The pusher in the middle of frame `number`, on buffer `index`. */
  predicate PusherScanning(f: Format, p: State, index: nat, number: nat) {
    && p.fb == HandleOf(f, index) && p.callback == Some(number)
    && 0 <= p.scanline <= LastLine(f)
    && p.dma.buffer == Some(index)
    && (p.dma.irq <==> p.dma.count == 0)
  }

  predicate DriverOk(f: Format, s: System) {
    var p := s.pusher;
    match s.writing
    case NotWriting => IdleOrScanning(f, s)
    case Waiting(_) => IdleOrScanning(f, s)
    case BeforeCallback(_) => PusherIdle(f, p, s.started == [])
    case BeforeFramebuffer(_) => DmaIdle(p) && p.callback == Some(|s.started|)
    case BeforeReset(b) => DmaIdle(p) && p.callback == Some(|s.started|) && p.fb == HandleOf(f, b.index)
    case BeforeTrigger(b) =>
      DmaIdle(p) && p.callback == Some(|s.started|) && p.fb == HandleOf(f, b.index) && p.scanline == 0
  }

  predicate IdleOrScanning(f: Format, s: System) {
    if s.pusher.callback.None? then PusherIdle(f, s.pusher, s.started == [])
    else
      && s.started != []
      && PusherScanning(f, s.pusher, s.started[|s.started| - 1].index, |s.started| - 1)
      && s.interrupts == s.pusher.scanline
  }

  /** Every frame begun has completed, once, in order, with its own framebuffer and callback
      and after the right number of interrupts, except the one in flight. */
  predicate FramesOk(f: Format, s: System) {
    && |s.finished| + |InFlight(s)| == |s.started|
    && forall k :: 0 <= k < |s.finished| ==> s.finished[k] == (HandleOf(f, s.started[k].index), k, LastLine(f) + 1)
  }

  ghost predicate Invariant(f: Format, s: System) {
    && P.Numbered(LedgerOf(s))
    && DriverOk(f, s) && FramesOk(f, s)
    && (s.pool.getter.Outside? || s.writing.NotWriting?)
  }

  lemma InitialIsInvariant(f: Format, size: nat)
    requires 0 < size
    ensures Invariant(f, Initial(size))
  {
  }

  /** What each event is to the pool. */
  function PoolEvent(s: System, e: Event): Option<P.Event> {
    match e
    case GetAcquires => Some(P.Acquires)
    case GetTakesIndex => Some(P.TakesIndex)
    case GetWrapsIndex => Some(P.WrapsIndex)
    case Interrupt => if OnIrq(s.pusher).1.Some? then Some(P.Releases(0)) else None
    case _ => None
  }

  /** Getting a buffer, seen from the pool. */
  lemma GetOnLedger(f: Format, s: System, e: Event)
    requires Invariant(f, s) && Possible(s, e) && (e.GetAcquires? || e.GetTakesIndex? || e.GetWrapsIndex?)
    ensures LedgerOf(Apply(f, s, e)) == P.Next(LedgerOf(s), PoolEvent(s, e).value)
  {
    hide P.RoundRobin, P.Balanced, DriverOk, FramesOk;
    assert InFlight(Apply(f, s, e)) == InFlight(s);
    if e == GetWrapsIndex {
      assert InFlight(s) + [] + s.held + BeingGot(s) == InFlight(s) + [] + (s.held + BeingGot(s)) + [];
    }
  }

  /** Beginning to release a buffer reorders those that are out. */
  lemma BeginReleaseOnLedger(f: Format, s: System, i: nat)
    requires Invariant(f, s) && Possible(s, BeginRelease(i))
    ensures i < |s.held| && |InFlight(s)| + |s.held| == |LedgerOf(s).out|
    ensures LedgerOf(Apply(f, s, BeginRelease(i))) == P.Moved(LedgerOf(s), |InFlight(s)|, |InFlight(s)| + i)
  {
    var t := Apply(f, s, BeginRelease(i));
    assert InFlight(t) == InFlight(s);
    MovedOut(InFlight(s), s.held, i);
    hide Invariant, InFlight;
  }

  lemma MovedOut(flight: seq<P.Buffer>, held: seq<P.Buffer>, i: nat)
    requires i < |held|
    ensures var n, out := |flight|, flight + [] + held + [];
            |out| == n + |held| &&
            flight + [held[i]] + (held[..i] + held[i + 1..]) + []
            == out[..n] + [out[n + i]] + out[n..n + i] + out[n + i + 1..]
  {
    var n, out := |flight|, flight + [] + held + [];
    assert out == flight + held;
    assert out[..n] == flight && out[n..n + i] == held[..i] && out[n + i + 1..] == held[i + 1..];
  }

  /** The steps of WriteFramebuffer and the DMA transfers, seen from the pool: nothing happens. */
  lemma DriverEventOnLedger(f: Format, s: System, e: Event)
    requires Invariant(f, s) && Possible(s, e)
    requires !e.GetAcquires? && !e.GetTakesIndex? && !e.GetWrapsIndex? && !e.BeginRelease? && !e.Interrupt?
    ensures LedgerOf(Apply(f, s, e)) == LedgerOf(s)
  {
    hide P.RoundRobin, P.Balanced, FramesOk;
  }

  lemma InterruptOnLedger(f: Format, s: System)
    requires Invariant(f, s)
    ensures var pe := PoolEvent(s, Interrupt);
            LedgerOf(HandleInterrupt(s)) == if pe.None? then LedgerOf(s) else P.Next(LedgerOf(s), pe.value)
  {
    hide Invariant, LedgerOf, HandleInterrupt, OnIrq;
    if OnIrq(s.pusher).1.Some? {
      CompletionOnLedger(f, s);
    } else {
      OtherInterruptOnLedger(f, s);
    }
  }

  lemma OtherInterruptOnLedger(f: Format, s: System)
    requires Invariant(f, s) && OnIrq(s.pusher).1.None?
    ensures LedgerOf(HandleInterrupt(s)) == LedgerOf(s)
  {
    hide P.Numbered, HandleOf, RowOffset;
  }

  /** Completing a frame returns the first buffer of the ledger. */
  lemma CompletionOnLedger(f: Format, s: System)
    requires Invariant(f, s) && OnIrq(s.pusher).1.Some?
    ensures LedgerOf(HandleInterrupt(s)) == P.Next(LedgerOf(s), P.Releases(0))
  {
    CompletionEndsFlight(f, s);
    hide Invariant, InFlight, OnIrq;
    var rest := BeingReleased(s) + s.held + BeingGot(s);
    assert LedgerOf(s).out == InFlight(s) + rest;
    assert LedgerOf(HandleInterrupt(s)).out == [] + rest;
    FirstDropped(InFlight(s), rest);
  }

  lemma CompletionEndsFlight(f: Format, s: System)
    requires Invariant(f, s) && OnIrq(s.pusher).1.Some?
    ensures |InFlight(s)| == 1 && InFlight(HandleInterrupt(s)) == []
  {
    hide P.Numbered, HandleOf, RowOffset;
  }

  lemma FirstDropped(first: seq<P.Buffer>, rest: seq<P.Buffer>)
    requires |first| == 1
    ensures (first + rest)[..0] + (first + rest)[0 + 1..] == [] + rest
  {
  }

  /** Every event is a step of a client of the pool, or invisible to it, or a reordering. */
  ghost predicate IsClientStep(l: P.Ledger, pe: Option<P.Event>, e: Event, flight: nat, m: P.Ledger) {
    if pe.Some? then m == P.Next(l, pe.value)
    else if e.BeginRelease? then flight + e.position < |l.out| && m == P.Moved(l, flight, flight + e.position)
    else m == l
  }

  lemma EventIsClientStep(f: Format, s: System, e: Event)
    requires Invariant(f, s) && Possible(s, e)
    ensures IsClientStep(LedgerOf(s), PoolEvent(s, e), e, |InFlight(s)|, LedgerOf(Apply(f, s, e)))
  {
    if e == Interrupt {
      InterruptOnLedger(f, s);
      InterruptApplies(f, s);
    } else if e.BeginRelease? {
      BeginReleaseOnLedger(f, s, e.position);
    } else if e.GetAcquires? || e.GetTakesIndex? || e.GetWrapsIndex? {
      GetOnLedger(f, s, e);
    } else {
      DriverEventOnLedger(f, s, e);
    }
    hide Invariant, P.Next, P.Moved, LedgerOf, OnIrq, Possible, Apply, InFlight;
  }

  lemma EventOnLedger(f: Format, s: System, e: Event)
    requires Invariant(f, s) && Possible(s, e)
    ensures P.Numbered(LedgerOf(Apply(f, s, e)))
    ensures P.Recent(LedgerOf(s)) && (e == GetTakesIndex ==> P.LastRoundReturned(LedgerOf(s))) ==>
              P.Recent(LedgerOf(Apply(f, s, e)))
    ensures P.Consecutive(LedgerOf(s)) && (e.BeginRelease? ==> e.position == 0) ==>
              P.Consecutive(LedgerOf(Apply(f, s, e)))
  {
    EventIsClientStep(f, s, e);
    ClientStepKeeps(LedgerOf(s), PoolEvent(s, e), e, |InFlight(s)|, LedgerOf(Apply(f, s, e)));
    hide DriverOk, FramesOk, P.Numbered, P.Recent, P.LastRoundReturned, P.Consecutive, LedgerOf, OnIrq, Possible, Apply;
  }

  lemma ClientStepKeeps(l: P.Ledger, pe: Option<P.Event>, e: Event, flight: nat, m: P.Ledger)
    requires P.Numbered(l) && IsClientStep(l, pe, e, flight, m)
    requires pe.Some? && pe.value.Releases? ==> pe.value.position == 0
    ensures P.Numbered(m)
    ensures P.Recent(l) && (pe == Some(P.TakesIndex) ==> P.LastRoundReturned(l)) ==> P.Recent(m)
    ensures P.Consecutive(l) && (e.BeginRelease? ==> e.position == 0) ==> P.Consecutive(m)
  {
    hide P.RoundRobin, P.Balanced, P.Possible, P.Next, P.Moved, P.Recent, P.LastRoundReturned, P.Consecutive;
    if pe.Some? {
      P.StepKeepsNumbers(l, pe.value);
      if P.Consecutive(l) {
        P.StepKeepsOrder(l, pe.value);
      }
      if P.Recent(l) && (pe.value == P.TakesIndex ==> P.LastRoundReturned(l)) {
        P.StepKeepsRecent(l, pe.value);
      }
    } else if e.BeginRelease? {
      P.MoveKeeps(l, flight, flight + e.position);
    }
  }

  lemma InterruptApplies(f: Format, s: System)
    ensures Possible(s, Interrupt) && Apply(f, s, Interrupt) == HandleInterrupt(s)
  {
  }

  lemma ThreadEventOnDriver(f: Format, s: System, e: Event)
    requires Invariant(f, s) && Possible(s, e) && !e.Interrupt?
    ensures DriverOk(f, Apply(f, s, e)) && FramesOk(f, Apply(f, s, e))
  {
    hide P.Numbered;
  }

  lemma InterruptOnDriver(f: Format, s: System)
    requires Invariant(f, s)
    ensures DriverOk(f, HandleInterrupt(s))
  {
    hide P.Numbered;
  }

  lemma InterruptOnFrames(f: Format, s: System)
    requires Invariant(f, s)
    ensures FramesOk(f, HandleInterrupt(s))
  {
    hide P.Numbered;
  }

  lemma EventKeepsInvariant(f: Format, s: System, e: Event)
    requires Invariant(f, s) && Possible(s, e)
    ensures Invariant(f, Apply(f, s, e))
  {
    EventOnLedger(f, s, e);
    if e == Interrupt {
      InterruptOnDriver(f, s);
      InterruptOnFrames(f, s);
    } else {
      ThreadEventOnDriver(f, s, e);
    }
    hide P.Numbered, DriverOk, FramesOk, OnIrq;
  }

  lemma NextKeepsInvariant(f: Format, s: System, e: Event)
    requires Invariant(f, s)
    ensures Invariant(f, Next(f, s, e)) && Next(f, s, e).pool.size == s.pool.size
  {
    if Possible(s, e) {
      EventKeepsInvariant(f, s, e);
    }
    hide Invariant;
  }

  lemma {:induction false} RunKeepsInvariant(f: Format, s: System, events: seq<Event>)
    requires Invariant(f, s)
    ensures Invariant(f, Run(f, s, events)) && Run(f, s, events).pool.size == s.pool.size
    decreases |events|
  {
    hide Next, Invariant;
    if events == [] {
    } else {
      NextKeepsInvariant(f, s, events[0]);
      RunKeepsInvariant(f, Next(f, s, events[0]), events[1..]);
    }
  }

  // ---- What holds in every interleaving ----

  /** The DMA channel is reading a buffer, or has just read it and not been acknowledged. */
  predicate DmaUses(s: System, index: nat) {
    s.pusher.dma.buffer == Some(index) && (0 < s.pusher.dma.count || s.pusher.dma.irq)
  }

  predicate AtIndex(buffers: seq<P.Buffer>, index: nat) {
    exists i :: 0 <= i < |buffers| && buffers[i].index == index
  }

  /** No buffer is in two places, and the one the DMA channel reads is not held, being
      released or being handed out. */
  ghost predicate Apart(s: System) {
    && P.Distinct(InFlight(s) + BeingReleased(s) + s.held + BeingGot(s))
    && forall b :: DmaUses(s, b) ==> !AtIndex(BeingReleased(s) + s.held + BeingGot(s), b)
  }

  /** The driver's assertion that no callback is stored holds when it is reached; every frame
      but the one in flight has completed exactly once, in order, with its own framebuffer and
      callback and after the expected number of interrupts; and permits are conserved. */
  ghost predicate Sound(f: Format, size: nat, s: System) {
    && (s.writing.BeforeCallback? ==> s.pusher.callback.None?)
    && |s.finished| + |InFlight(s)| == |s.started|
    && (forall k :: 0 <= k < |s.finished| ==>
          s.finished[k] == (HandleOf(f, s.started[k].index), k, LastLine(f) + 1))
    && s.pool.permits + |InFlight(s)| + |BeingReleased(s)| + |s.held|
       + (if s.pool.getter.Outside? then 0 else 1) == size
  }

  ghost predicate AlwaysApart(f: Format, s: System, events: seq<Event>)
    decreases |events|
  {
    Apart(s) && (events == [] || AlwaysApart(f, Next(f, s, events[0]), events[1..]))
  }

  /** Every get of the run chooses its buffer after that of one round ago is back. */
  predicate ReturnedInTime(f: Format, s: System, events: seq<Event>)
    decreases |events|
  {
    events != [] ==>
      && (events[0] == GetTakesIndex && Possible(s, GetTakesIndex) ==> P.LastRoundReturned(LedgerOf(s)))
      && ReturnedInTime(f, Next(f, s, events[0]), events[1..])
  }

  /** For any pool and any interleaving of the thread with interrupts, whichever buffers the
      thread releases: every state is sound, and every state keeps the buffers apart if and only
      if each get finds the buffer of one round ago back in the pool. */
  lemma HandoffIsSafe(f: Format, size: nat, events: seq<Event>)
    requires 0 < size
    ensures Sound(f, size, Run(f, Initial(size), events))
    ensures AlwaysApart(f, Initial(size), events) <==> ReturnedInTime(f, Initial(size), events)
  {
    InitialIsInvariant(f, size);
    RunKeepsInvariant(f, Initial(size), events);
    InvariantIsSound(f, Run(f, Initial(size), events));
    ApartExactlyWhenInTime(f, Initial(size), events);
  }

  lemma InvariantIsSound(f: Format, s: System)
    requires Invariant(f, s)
    ensures Sound(f, s.pool.size, s)
  {
    hide P.RoundRobin;
  }

  lemma {:induction false} ApartExactlyWhenInTime(f: Format, s: System, events: seq<Event>)
    requires Invariant(f, s) && P.Recent(LedgerOf(s))
    ensures AlwaysApart(f, s, events) <==> ReturnedInTime(f, s, events)
    decreases |events|
  {
    RecentIsApart(f, s);
    if events == [] {
    } else {
      var e := events[0];
      if e == GetTakesIndex && Possible(s, e) && !P.LastRoundReturned(LedgerOf(s)) {
        LateReturnIsNotApart(f, s);
        hide Apart, Next, Invariant, LedgerOf, P.LastRoundReturned;
        assert AlwaysApart(f, Next(f, s, e), events[1..]) ==> Apart(Next(f, s, e));
      } else {
        InTimeStepKeeps(f, s, e);
        hide Apart, Next, Invariant, LedgerOf, P.LastRoundReturned, P.Recent;
        ApartExactlyWhenInTime(f, Next(f, s, e), events[1..]);
      }
    }
  }

  lemma InTimeStepKeeps(f: Format, s: System, e: Event)
    requires Invariant(f, s) && P.Recent(LedgerOf(s))
    requires e == GetTakesIndex && Possible(s, e) ==> P.LastRoundReturned(LedgerOf(s))
    ensures Invariant(f, Next(f, s, e)) && P.Recent(LedgerOf(Next(f, s, e)))
  {
    NextKeepsInvariant(f, s, e);
    if Possible(s, e) {
      EventOnLedger(f, s, e);
    }
    hide Invariant, LedgerOf, P.Recent, Apply;
  }

  lemma RecentIsApart(f: Format, s: System)
    requires Invariant(f, s) && P.Recent(LedgerOf(s))
    ensures Apart(s)
  {
    P.RecentIsDistinct(LedgerOf(s));
    forall b | DmaUses(s, b)
      ensures !AtIndex(BeingReleased(s) + s.held + BeingGot(s), b)
    {
      DmaBufferIsApart(f, s, b);
    }
    hide Invariant, P.Distinct, P.Recent, InFlight, BeingReleased, BeingGot, DmaUses;
  }

  lemma LateReturnIsNotApart(f: Format, s: System)
    requires Invariant(f, s) && Possible(s, GetTakesIndex) && !P.LastRoundReturned(LedgerOf(s))
    ensures !Apart(Next(f, s, GetTakesIndex))
  {
    GetOnLedger(f, s, GetTakesIndex);
    P.LateReturnCollides(LedgerOf(s));
    hide Invariant, P.Distinct, P.LastRoundReturned;
  }

  lemma DmaBufferIsApart(f: Format, s: System, b: nat)
    requires Invariant(f, s) && P.Distinct(LedgerOf(s).out) && DmaUses(s, b)
    ensures !AtIndex(BeingReleased(s) + s.held + BeingGot(s), b)
  {
    DmaBufferIsInFlight(f, s, b);
    var others := BeingReleased(s) + s.held + BeingGot(s);
    var all := LedgerOf(s).out;
    hide Invariant, DmaUses;
    assert all == InFlight(s) + others;
    hide LedgerOf, BeingReleased, BeingGot, InFlight;
    forall j | 0 <= j < |others|
      ensures others[j].index != b
    {
      assert all[0].index != all[j + 1].index;
    }
  }

  lemma DmaBufferIsInFlight(f: Format, s: System, b: nat)
    requires Invariant(f, s) && DmaUses(s, b)
    ensures |InFlight(s)| == 1 && InFlight(s)[0].index == b
  {
    hide P.Numbered;
  }

  predicate OldestFirst(events: seq<Event>) {
    forall e :: e in events && e.BeginRelease? ==> e.position == 0
  }

  /** A thread that releases first what it got first is always safe. */
  lemma OldestFirstIsSafe(f: Format, size: nat, events: seq<Event>)
    requires 0 < size && OldestFirst(events)
    ensures AlwaysApart(f, Initial(size), events)
  {
    InitialIsInvariant(f, size);
    OldestFirstIsInTime(f, Initial(size), events);
    HandoffIsSafe(f, size, events);
  }

  lemma {:induction false} OldestFirstIsInTime(f: Format, s: System, events: seq<Event>)
    requires Invariant(f, s) && P.Consecutive(LedgerOf(s)) && OldestFirst(events)
    ensures ReturnedInTime(f, s, events)
    decreases |events|
  {
    if events == [] {
    } else {
      var e := events[0];
      assert e in events;
      P.OrderIsInTime(LedgerOf(s));
      NextKeepsInvariant(f, s, e);
      if Possible(s, e) {
        EventOnLedger(f, s, e);
      }
      assert P.Consecutive(LedgerOf(Next(f, s, e)));
      hide Next, Invariant, LedgerOf, P.LastRoundReturned, P.Consecutive;
      OldestFirstIsInTime(f, Next(f, s, e), events[1..]);
    }
  }

  // ---- Progress ----

  /** Events that change something: an interrupt does only if it is this channel's. */
  predicate Useful(s: System, e: Event) {
    Possible(s, e) && (e == Interrupt ==> s.pusher.dma.irq)
  }

  /** The application is stuck: it can never get past the busy-wait. */
  predicate Wedged(s: System) {
    s.writing.Waiting? && IsBusy(s.pusher) && DmaIdle(s.pusher)
  }

  /** In every reachable state something can happen, unless the thread is wedged. */
  lemma NoDeadlock(f: Format, s: System)
    requires Invariant(f, s) && 0 < s.pool.size
    ensures Wedged(s) || exists e :: Useful(s, e)
  {
    hide P.RoundRobin;
    if s.pusher.dma.irq {
      assert Useful(s, Interrupt);
    } else if 0 < s.pusher.dma.count {
      assert Useful(s, DmaTransfers);
    } else {
      match s.pool.getter
      case Acquired => assert Useful(s, GetTakesIndex);
      case Incremented(_) => assert Useful(s, GetWrapsIndex);
      case Outside =>
        match s.writing
        case NotWriting =>
          assert Useful(s, if s.held == [] then GetAcquires else BeginRelease(0));
        case Waiting(_) =>
          assert IsBusy(s.pusher) || Useful(s, EndWait);
        case BeforeCallback(_) => assert Useful(s, StoreCallback);
        case BeforeFramebuffer(_) => assert Useful(s, StoreFramebuffer);
        case BeforeReset(_) => assert Useful(s, ResetScanline);
        case BeforeTrigger(_) => assert Useful(s, TriggerDma);
    }
  }

  /** The busy-wait of a second frame ends if and only if the height survives doubling in 16 bits. */
  lemma WedgedExactlyWhenTooTall(f: Format, s: System)
    requires Invariant(f, s) && s.writing.Waiting? && InFlight(s) == []
    ensures Wedged(s) <==> s.finished != [] && 32768 <= f.height
  {
    hide P.Numbered;
  }

  /** Every reachable state has a useful event, except that with heights of 2^15 or more the
      thread is stuck in its second release. */
  lemma HandoffNeverDeadlocks(f: Format, size: nat, events: seq<Event>)
    requires 0 < size
    ensures var s := Run(f, Initial(size), events);
            (exists e :: Useful(s, e)) || (Wedged(s) && s.finished != [] && 32768 <= f.height)
  {
    var s := Run(f, Initial(size), events);
    InitialIsInvariant(f, size);
    RunKeepsInvariant(f, Initial(size), events);
    NoDeadlock(f, s);
    if Wedged(s) {
      WedgedHasNothingInFlight(f, s);
      WedgedExactlyWhenTooTall(f, s);
    }
  }

  lemma WedgedHasNothingInFlight(f: Format, s: System)
    requires Invariant(f, s) && Wedged(s)
    ensures InFlight(s) == []
  {
    hide P.Numbered;
  }

  // ---- The busy-wait ends ----

  /** Useful events left before the frame in flight is complete. */
  function Left(f: Format, s: System): int {
    if s.pusher.callback.None? then 0
    else s.pusher.dma.count + (LastLine(f) - s.pusher.scanline) * (ToU16(f.width * 2) / 2 + 1) + 1
  }

  /** While the thread waits, everything useful that can happen brings the frame nearer its end. */
  lemma WaitIsProgress(f: Format, s: System, e: Event)
    requires Invariant(f, s) && s.writing.Waiting? && Useful(s, e) && e != EndWait
    ensures 0 <= Left(f, Apply(f, s, e)) < Left(f, s)
  {
    hide P.Numbered, FramesOk;
    var lines, words := LastLine(f) - s.pusher.scanline, ToU16(f.width * 2) / 2 + 1;
    MulMono(0, lines - 1, words);
    MulMono(0, lines, words);
    assert (lines - 1) * words == lines * words - words;
    assert (LastLine(f) - (s.pusher.scanline + 1)) * words == (lines - 1) * words;
  }

  /** When nothing of the frame is left, the wait is over, unless the height is 2^15 or more. */
  lemma WaitIsOver(f: Format, s: System)
    requires Invariant(f, s) && s.writing.Waiting? && f.height < 32768
    ensures Useful(s, EndWait) <==> Left(f, s) == 0
  {
    hide P.Numbered, FramesOk;
    MulMono(0, LastLine(f) - s.pusher.scanline, ToU16(f.width * 2) / 2 + 1);
  }

  /** The thread is in the busy-wait from here to the end of the run, which has this many
      useful events. */
  predicate WaitsThroughout(f: Format, s: System, events: seq<Event>)
    decreases |events|
  {
    s.writing.Waiting? && (events == [] || WaitsThroughout(f, Next(f, s, events[0]), events[1..]))
  }

  function UsefulEvents(f: Format, s: System, events: seq<Event>): nat
    decreases |events|
  {
    if events == [] then 0
    else (if Useful(s, events[0]) then 1 else 0) + UsefulEvents(f, Next(f, s, events[0]), events[1..])
  }

  /** A busy-wait never outlasts the transfers and interrupts of the frame it waits for. */
  lemma {:induction false} BusyWaitEnds(f: Format, s: System, events: seq<Event>)
    requires Invariant(f, s) && WaitsThroughout(f, s, events)
    ensures UsefulEvents(f, s, events) <= Left(f, s)
    decreases |events|
  {
    if events == [] {
      LeftIsNatural(f, s);
    } else {
      var e := events[0];
      NextKeepsInvariant(f, s, e);
      if Useful(s, e) {
        assert e != EndWait;
        WaitIsProgress(f, s, e);
      } else {
        UselessChangesNothing(f, s, e);
      }
      hide Invariant, Next, Useful, Left;
      BusyWaitEnds(f, Next(f, s, e), events[1..]);
    }
  }

  lemma LeftIsNatural(f: Format, s: System)
    requires Invariant(f, s) && s.writing.Waiting?
    ensures 0 <= Left(f, s)
  {
    hide P.Numbered, FramesOk;
    MulMono(0, LastLine(f) - s.pusher.scanline, ToU16(f.width * 2) / 2 + 1);
  }

  lemma UselessChangesNothing(f: Format, s: System, e: Event)
    requires !Useful(s, e)
    ensures Left(f, Next(f, s, e)) == Left(f, s)
  {
  }

  /** A wedged thread stays so, whatever happens. */
  lemma {:induction false} WedgedForever(f: Format, s: System, events: seq<Event>)
    requires Wedged(s) && s.pool.getter.Outside?
    ensures Wedged(Run(f, s, events))
    decreases |events|
  {
    if events == [] {
    } else {
      assert Possible(s, events[0]) ==> events[0] == Interrupt;
      WedgedForever(f, Next(f, s, events[0]), events[1..]);
    }
  }

  // ---- Runs that go wrong ----

  const GET := [GetAcquires, GetTakesIndex, GetWrapsIndex]
  const DRIVE := [EndWait, StoreCallback, StoreFramebuffer, ResetScanline, TriggerDma]

  lemma {:induction false} RunConcat(f: Format, s: System, a: seq<Event>, b: seq<Event>)
    ensures Run(f, s, a + b) == Run(f, Run(f, s, a), b)
    decreases |a|
  {
    if a == [] {
      assert a + b == b;
    } else {
      hide Next;
      assert (a + b)[1..] == a[1..] + b;
      RunConcat(f, Next(f, s, a[0]), a[1..], b);
    }
  }

  lemma RunCons(f: Format, s: System, e: Event, rest: seq<Event>)
    ensures Run(f, s, [e] + rest) == Run(f, Next(f, s, e), rest)
  {
    assert ([e] + rest)[1..] == rest;
  }

  lemma RunOne(f: Format, s: System, e: Event)
    ensures Run(f, s, [e]) == Next(f, s, e)
  {
    assert [e][1..] == [];
  }

  /** A whole get, when there is a permit. */
  lemma GetRun(f: Format, s: System)
    requires ThreadFree(s) && 0 < s.pool.permits
    ensures Run(f, s, GET) ==
            s.(pool := P.WrapIndex(P.TakeIndex(P.Acquire(s.pool))),
               held := s.held + [P.Buffer(s.pool.next, s.gets)], gets := s.gets + 1)
  {
    assert GET == [GetAcquires] + ([GetTakesIndex] + [GetWrapsIndex]);
    var s1 := Next(f, s, GetAcquires);
    var s2 := Next(f, s1, GetTakesIndex);
    RunCons(f, s, GetAcquires, [GetTakesIndex] + [GetWrapsIndex]);
    RunCons(f, s1, GetTakesIndex, [GetWrapsIndex]);
    RunOne(f, s2, GetWrapsIndex);
  }

  /** From the busy-wait to the trigger, when the driver is not busy. */
  lemma DriveRun(f: Format, s: System)
    requires s.writing.Waiting? && !IsBusy(s.pusher)
    ensures Run(f, s, DRIVE) ==
            s.(pusher := StartFrame(s.pusher, HandleOf(f, s.writing.buffer.index), |s.started|),
               writing := NotWriting, started := s.started + [s.writing.buffer], interrupts := 0)
  {
    hide Run;
    var s1 := Next(f, s, EndWait);
    var s2 := Next(f, s1, StoreCallback);
    var s3 := Next(f, s2, StoreFramebuffer);
    var s4 := Next(f, s3, ResetScanline);
    assert DRIVE == [EndWait] + ([StoreCallback] + ([StoreFramebuffer] + ([ResetScanline] + [TriggerDma])));
    RunCons(f, s, EndWait, [StoreCallback] + ([StoreFramebuffer] + ([ResetScanline] + [TriggerDma])));
    RunCons(f, s1, StoreCallback, [StoreFramebuffer] + ([ResetScanline] + [TriggerDma]));
    RunCons(f, s2, StoreFramebuffer, [ResetScanline] + [TriggerDma]);
    RunCons(f, s3, ResetScanline, [TriggerDma]);
    RunOne(f, s4, TriggerDma);
  }

  const TALL := Format(2, 32768, 4)
  const FIRST := P.Buffer(0, 0)
  const FIRST_FRAME := HandleOf(TALL, 0)

  /** The first frame has been triggered ... */
  const ONE_STARTED := System(P.Pool(1, 0, 0, P.Outside), 1, [], NotWriting,
                              State(0, FIRST_FRAME, Some(0), 0, Dma(Some(0), 0, 1, 1, false)), [FIRST], [], 0)

  /** ... and has completed. */
  const ONE_FINISHED := System(P.Pool(1, 1, 0, P.Outside), 1, [], NotWriting,
                               State(1, FIRST_FRAME.MovedFrom(), None, 1, Dma(Some(0), 2, 1, 0, false)),
                               [FIRST], [(FIRST_FRAME, 0, 1)], 1)

  lemma OneStarts()
    ensures Run(TALL, Initial(1), GET + [BeginRelease(0)] + DRIVE) == ONE_STARTED
  {
    hide Run;
    var s1 := Initial(1).(pool := P.Pool(1, 0, 0, P.Outside), held := [FIRST], gets := 1);
    var s2 := s1.(held := [], writing := Waiting(FIRST));
    RunConcat(TALL, Initial(1), GET, [BeginRelease(0)]);
    RunConcat(TALL, Initial(1), GET + [BeginRelease(0)], DRIVE);
    GetRun(TALL, Initial(1));
    assert Run(TALL, Initial(1), GET) == s1;
    RunOne(TALL, s1, BeginRelease(0));
    assert Next(TALL, s1, BeginRelease(0)) == s2;
    DriveRun(TALL, s2);
  }

  lemma OneFinishes()
    ensures Run(TALL, ONE_STARTED, [DmaTransfers] + [Interrupt]) == ONE_FINISHED
  {
    hide Run;
    var s := ONE_STARTED.(pusher := State(0, FIRST_FRAME, Some(0), 0, Dma(Some(0), 2, 1, 0, true)));
    RunConcat(TALL, ONE_STARTED, [DmaTransfers], [Interrupt]);
    RunOne(TALL, ONE_STARTED, DmaTransfers);
    RunOne(TALL, s, Interrupt);
  }

  lemma SecondReleaseWedges()
    ensures Wedged(Run(TALL, ONE_FINISHED, GET + [BeginRelease(0)]))
  {
    hide Run;
    var s := ONE_FINISHED.(pool := P.Pool(1, 0, 0, P.Outside), held := [P.Buffer(0, 1)], gets := 2);
    RunConcat(TALL, ONE_FINISHED, GET, [BeginRelease(0)]);
    GetRun(TALL, ONE_FINISHED);
    assert Run(TALL, ONE_FINISHED, GET) == s;
    RunOne(TALL, s, BeginRelease(0));
  }

  /** A framebuffer 2 pixels wide and 32768 high, 128 KB, gets its thread stuck in the second release. */
  lemma TooTallWedges()
    ensures Wedged(Run(TALL, Initial(1), (GET + [BeginRelease(0)] + DRIVE) + ([DmaTransfers] + [Interrupt])
                                         + (GET + [BeginRelease(0)])))
  {
    OneStarts();
    OneFinishes();
    SecondReleaseWedges();
    hide Run, Wedged;
    var frame, end := GET + [BeginRelease(0)] + DRIVE, [DmaTransfers] + [Interrupt];
    RunConcat(TALL, Initial(1), frame, end);
    RunConcat(TALL, Initial(1), frame + end, GET + [BeginRelease(0)]);
  }
}
