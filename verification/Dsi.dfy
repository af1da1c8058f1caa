/** The MIPI DSI memory write without SmartDMA, for RGB565: a write is cut into chunks that fit
    one DSI payload, with the bytes of each pixel swapped, and each chunk after the first is
    sent from the completion callback of the one before. */
module Dsi {
  import opened Framebuffers

  type Byte = b: int | 0 <= b < 256

  datatype Status = Success | Fail
  datatype Command = WriteMemoryStart | WriteMemoryContinue

  /** What DSI_TransferNonBlocking is given. */
  datatype Packet = Packet(command: Command, payload: seq<Byte>)

  /** The write context, and what the DSI host has been given and has been told so far.
      `data` is the caller's memory from the start of the current write; `position` is tx_data. */
  datatype Device = Device(
    ongoing: bool, data: seq<Byte>, position: nat, remaining: nat, command: Command,
    packets: seq<Packet>, inTransfer: bool)

  const INITIAL := Device(false, [], 0, 0, WriteMemoryStart, [], false)

  /** kMaxDSITxArraySize for a payload limit of the DSI host. */
  function ChunkLimit(maxPayload: nat): nat
    requires 0 < maxPayload
  {
    (maxPayload - 1) / 2 * 2
  }

  /** The bytes of each pair exchanged, for as many bytes as are asked for; the last pair is
      read whole even if only one of its bytes is wanted. */
  function SwappedBytes(data: seq<Byte>, count: nat): (r: seq<Byte>)
    requires count + count % 2 <= |data|
    ensures |r| == count
  {
    seq(count, i requires 0 <= i < count => data[if i % 2 == 0 then i + 1 else i - 1])
  }

  function Even(n: nat): nat {
    n + n % 2
  }

  predicate Readable(d: Device) {
    d.position + Even(d.remaining) <= |d.data|
  }

  /** DsiMemWriteSendChunck; `accepted` says whether the host takes the transfer. */
  function SendChunk(limit: nat, d: Device, accepted: bool): (Device, Status)
    requires Readable(d) && limit % 2 == 0
  {
    var length := if limit > d.remaining then d.remaining else limit;
    var packet := Packet(d.command, SwappedBytes(d.data[d.position..], length));
    var d := d.(position := d.position + Even(length), remaining := d.remaining - length,
                command := WriteMemoryContinue);
    if accepted then (d.(packets := d.packets + [packet], inTransfer := true), Success) else (d, Fail)
  }

  /** DSI_MemWrite. */
  function MemWrite(limit: nat, d: Device, data: seq<Byte>, length: nat, accepted: bool): (Device, Status)
    requires limit % 2 == 0 && Even(length) <= |data|
  {
    if d.ongoing then (d, Fail)
    else
      var d := d.(ongoing := true, data := data, position := 0, remaining := length,
                  command := WriteMemoryStart);
      var (d, status) := SendChunk(limit, d, accepted);
      (if status == Success then d else d.(ongoing := false), status)
  }

  /** DsiMemWriteCallback, on completion of a transfer; the result is the status passed to the
      done-callback, if that is called. */
  function OnTransferDone(limit: nat, d: Device, status: Status, accepted: bool): (Device, Option<Status>)
    requires Readable(d) && limit % 2 == 0
  {
    var d := d.(inTransfer := false);
    if status == Success && 0 < d.remaining then
      var (d, sent) := SendChunk(limit, d, accepted);
      if sent == Success then (d, None) else (d.(ongoing := false), Some(Fail))
    else (d.(ongoing := false), Some(status))
  }

  // ---- One write ----

  /** The payload bytes handed to the host, in order. */
  function Sent(packets: seq<Packet>): seq<Byte> {
    if packets == [] then [] else Sent(packets[..|packets| - 1]) + packets[|packets| - 1].payload
  }

  /** Chunks fit, and only the first starts a new memory write. */
  predicate WellCut(limit: nat, packets: seq<Packet>) {
    forall i :: 0 <= i < |packets| ==>
      && |packets[i].payload| <= limit
      && packets[i].command == (if i == 0 then WriteMemoryStart else WriteMemoryContinue)
      && (i < |packets| - 1 ==> |packets[i].payload| == limit)
  }

  /** `packets` are the first chunks of a write, and the device is ready to send the rest. */
  predicate InWrite(limit: nat, d: Device, packets: seq<Packet>, data: seq<Byte>, length: nat) {
    && Even(length) <= |data| && d.data == data
    && WellCut(limit, packets)
    && |Sent(packets)| + d.remaining == length
    && Sent(packets) == SwappedBytes(data, |Sent(packets)|)
    && d.position + Even(d.remaining) == Even(length)
    && (0 < d.remaining && packets != [] ==> |packets[|packets| - 1].payload| == limit)
    && d.command == if packets == [] then WriteMemoryStart else WriteMemoryContinue
  }

  /** The packet that SendChunk builds. */
  function NextPacket(limit: nat, d: Device): Packet
    requires Readable(d)
  {
    var length := if limit > d.remaining then d.remaining else limit;
    Packet(d.command, SwappedBytes(d.data[d.position..], length))
  }

  lemma SentOneMore(packets: seq<Packet>, p: Packet)
    ensures Sent(packets + [p]) == Sent(packets) + p.payload
  {
    assert (packets + [p])[..|packets|] == packets;
  }

  lemma SwappedInTwoParts(data: seq<Byte>, m: nat, n: nat)
    requires m % 2 == 0 && m + Even(n) <= |data|
    ensures SwappedBytes(data, m + n) == SwappedBytes(data, m) + SwappedBytes(data[m..], n)
  {
  }

  /** Sending one chunk, if the host takes it, keeps everything about the write; and while
      bytes remain to be sent it leaves fewer. */
  lemma ChunkKeepsWrite(limit: nat, d: Device, packets: seq<Packet>, data: seq<Byte>, length: nat, accepted: bool)
    requires 0 < limit && limit % 2 == 0
    requires InWrite(limit, d, packets, data, length) && (packets != [] ==> 0 < d.remaining)
    ensures Readable(d)
    ensures InWrite(limit, SendChunk(limit, d, accepted).0, packets + [NextPacket(limit, d)], data, length)
    ensures 0 < d.remaining ==> SendChunk(limit, d, accepted).0.remaining < d.remaining
  {
    hide Sent, SwappedBytes, WellCut;
    WholeChunksBefore(limit, d, packets, data, length);
    SentStaysSwapped(packets, NextPacket(limit, d), data);
    WellCutOneMore(limit, packets, NextPacket(limit, d));
  }

  lemma SentStaysSwapped(packets: seq<Packet>, p: Packet, data: seq<Byte>)
    requires var sent, n := |Sent(packets)|, |p.payload|;
             && sent % 2 == 0 && sent + Even(n) <= |data|
             && Sent(packets) == SwappedBytes(data, sent) && p.payload == SwappedBytes(data[sent..], n)
    ensures var sent := Sent(packets + [p]);
            && |sent| == |Sent(packets)| + |p.payload|
            && sent == SwappedBytes(data, |sent|)
  {
    hide Sent, SwappedBytes;
    SentOneMore(packets, p);
    SwappedInTwoParts(data, |Sent(packets)|, |p.payload|);
  }

  lemma WellCutOneMore(limit: nat, packets: seq<Packet>, p: Packet)
    requires WellCut(limit, packets) && |p.payload| <= limit
    requires if packets == [] then p.command == WriteMemoryStart
             else p.command == WriteMemoryContinue && |packets[|packets| - 1].payload| == limit
    ensures WellCut(limit, packets + [p])
  {
  }

  /** While bytes remain, only whole chunks have been sent, so the device has read just those. */
  lemma WholeChunksBefore(limit: nat, d: Device, packets: seq<Packet>, data: seq<Byte>, length: nat)
    requires limit % 2 == 0 && InWrite(limit, d, packets, data, length) && (packets != [] ==> 0 < d.remaining)
    ensures |Sent(packets)| % 2 == 0 && d.position == |Sent(packets)| && Readable(d)
  {
    hide Sent, SwappedBytes;
    WholeChunksAreEven(limit, packets);
  }

  lemma {:induction false} WholeChunksAreEven(limit: nat, packets: seq<Packet>)
    requires limit % 2 == 0
    requires forall i :: 0 <= i < |packets| ==> |packets[i].payload| == limit
    ensures |Sent(packets)| % 2 == 0
  {
    if packets == [] {
    } else {
      WholeChunksAreEven(limit, packets[..|packets| - 1]);
    }
  }

  /** Swapping twice gives the bytes back, so what the panel receives determines the pixels. */
  lemma SwapUndoesItself(data: seq<Byte>, n: nat)
    requires n % 2 == 0 && n <= |data|
    ensures SwappedBytes(SwappedBytes(data, n), n) == data[..n]
  {
  }

  /** A write stays inside its input exactly if its length is even: otherwise its last byte is
      the one after the input. */
  lemma OddWriteReadsPastItsInput(data: seq<Byte>, n: nat)
    requires Even(n) <= |data|
    ensures (forall rest :: |rest| == |data| - n ==> SwappedBytes(data[..n] + rest, n) == SwappedBytes(data, n))
            <==> n % 2 == 0
  {
    if n % 2 == 0 {
      assert forall rest: seq<Byte>, i {:trigger (data[..n] + rest)[i]} ::
          0 <= i < n ==> (data[..n] + rest)[i] == data[i];
    } else {
      var other: Byte := if data[n] == 0 then 1 else 0;
      var rest := data[n..][0 := other];
      assert SwappedBytes(data[..n] + rest, n)[n - 1] == other;
      assert SwappedBytes(data, n)[n - 1] == data[n];
    }
  }

  // ---- Any sequence of writes and completions ----

  datatype Write = Write(data: seq<Byte>, length: nat)
  datatype Outcome = Outcome(status: Status, packets: seq<Packet>)

  /** A device with its history: the writes accepted, the done-callbacks made (with the packets
      the host had taken for that write), and the packets of the write under way. */
  datatype Machine = Machine(device: Device, current: seq<Packet>, writes: seq<Write>, outcomes: seq<Outcome>)

  datatype Event =
    | CallMemWrite(write: Write, accepted: bool)
    | TransferDone(status: Status, accepted: bool)

  predicate Possible(m: Machine, e: Event) {
    match e
    case CallMemWrite(w, _) => Even(w.length) <= |w.data|
    case TransferDone(_, _) => m.device.inTransfer && Readable(m.device)
  }

  function Apply(limit: nat, m: Machine, e: Event): Machine
    requires limit % 2 == 0 && Possible(m, e)
  {
    match e
    case CallMemWrite(w, accepted) =>
      var (d, status) := MemWrite(limit, m.device, w.data, w.length, accepted);
      if status == Success then
        m.(device := d, current := NewPackets(m.device, d), writes := m.writes + [w])
      else m.(device := d)
    case TransferDone(status, accepted) =>
      var (d, done) := OnTransferDone(limit, m.device, status, accepted);
      var current := m.current + NewPackets(m.device, d);
      m.(device := d, current := current,
         outcomes := if done.Some? then m.outcomes + [Outcome(done.value, current)] else m.outcomes)
  }

  function NewPackets(before: Device, after: Device): seq<Packet> {
    if |before.packets| <= |after.packets| then after.packets[|before.packets|..] else []
  }

  function Run(limit: nat, m: Machine, events: seq<Event>): Machine
    requires limit % 2 == 0
    decreases |events|
  {
    if events == [] then m
    else Run(limit, if Possible(m, events[0]) then Apply(limit, m, events[0]) else m, events[1..])
  }

  /** What the host was given for a write that is over: swapped bytes from its start, in well-cut
      packets, and all of them if the done-callback reported success. */
  predicate GoodOutcome(limit: nat, w: Write, o: Outcome) {
    && Even(w.length) <= |w.data|
    && o.packets != [] && WellCut(limit, o.packets)
    && |Sent(o.packets)| <= w.length
    && Sent(o.packets) == SwappedBytes(w.data, |Sent(o.packets)|)
    && (o.status == Success ==> |Sent(o.packets)| == w.length)
  }

  predicate Invariant(limit: nat, m: Machine) {
    && (m.device.ongoing <==> m.device.inTransfer)
    && |m.writes| == |m.outcomes| + (if m.device.ongoing then 1 else 0)
    && (m.device.ongoing ==>
          var w := m.writes[|m.writes| - 1];
          m.current != [] && InWrite(limit, m.device, m.current, w.data, w.length))
    && forall k :: 0 <= k < |m.outcomes| ==> GoodOutcome(limit, m.writes[k], m.outcomes[k])
  }

  /** A write during another changes nothing at all, and one whose first chunk the host refuses
      leaves no write behind and no callback to come. */
  lemma RefusedWrite(limit: nat, m: Machine, w: Write, accepted: bool)
    requires limit % 2 == 0 && Even(w.length) <= |w.data|
    ensures var t := Apply(limit, m, CallMemWrite(w, accepted));
            && (m.device.ongoing ==> t == m)
            && (!accepted ==> t.writes == m.writes && t.outcomes == m.outcomes && t.current == m.current)
            && (!accepted && !m.device.ongoing ==>
                  !t.device.ongoing && t.device.inTransfer == m.device.inTransfer
                  && t.device.packets == m.device.packets)
  {
  }

  lemma MemWriteKeepsInvariant(limit: nat, m: Machine, w: Write, accepted: bool)
    requires 0 < limit && limit % 2 == 0 && Invariant(limit, m) && Even(w.length) <= |w.data|
    ensures Invariant(limit, Apply(limit, m, CallMemWrite(w, accepted)))
  {
    hide GoodOutcome, SwappedBytes, Sent;
    if !m.device.ongoing {
      var d := m.device.(ongoing := true, data := w.data, position := 0, remaining := w.length,
                         command := WriteMemoryStart);
      StartIsInWrite(limit, d, w);
      ChunkKeepsWrite(limit, d, [], w.data, w.length, accepted);
      assert [] + [NextPacket(limit, d)] == [NextPacket(limit, d)];
      hide InWrite;
    }
  }

  lemma StartIsInWrite(limit: nat, d: Device, w: Write)
    requires Even(w.length) <= |w.data| && d.data == w.data
    requires d.position == 0 && d.remaining == w.length && d.command == WriteMemoryStart
    ensures InWrite(limit, d, [], w.data, w.length)
  {
  }

  lemma TransferDoneKeepsInvariant(limit: nat, m: Machine, status: Status, accepted: bool)
    requires 0 < limit && limit % 2 == 0 && Invariant(limit, m) && m.device.inTransfer && Readable(m.device)
    ensures Invariant(limit, Apply(limit, m, TransferDone(status, accepted)))
  {
    hide SwappedBytes, Sent;
    var w := m.writes[|m.writes| - 1];
    var d := m.device.(inTransfer := false);
    if status == Success && 0 < d.remaining {
      ChunkKeepsWrite(limit, d, m.current, w.data, w.length, accepted);
    }
    assert m.current + [] == m.current;
    hide InWrite, WellCut;
  }

  lemma {:induction false} RunKeepsInvariant(limit: nat, m: Machine, events: seq<Event>)
    requires 0 < limit && limit % 2 == 0 && Invariant(limit, m)
    ensures Invariant(limit, Run(limit, m, events))
    decreases |events|
  {
    if events == [] {
    } else {
      hide Invariant, Apply;
      var e := events[0];
      if Possible(m, e) {
        match e
        case CallMemWrite(w, accepted) => MemWriteKeepsInvariant(limit, m, w, accepted);
        case TransferDone(status, accepted) => TransferDoneKeepsInvariant(limit, m, status, accepted);
      }
      RunKeepsInvariant(limit, if Possible(m, e) then Apply(limit, m, e) else m, events[1..]);
    }
  }

  /** For any sequence of writes, successes and failures: each accepted write gets exactly one
      done-callback, in order, and until then the device is busy; a write reported as successful
      has had exactly its swapped bytes sent, and any other a prefix of them. */
  lemma EveryRunIsCorrect(maxPayload: nat, events: seq<Event>)
    requires 3 <= maxPayload
    ensures var limit := ChunkLimit(maxPayload);
            var m := Run(limit, Machine(INITIAL, [], [], []), events);
            && (m.device.ongoing <==> m.device.inTransfer)
            && |m.writes| == |m.outcomes| + (if m.device.ongoing then 1 else 0)
            && (forall k :: 0 <= k < |m.outcomes| ==> GoodOutcome(limit, m.writes[k], m.outcomes[k]))
            && (m.device.ongoing ==> Readable(m.device))
            && (m.device.ongoing ==>
                  |Sent(m.current)| + m.device.remaining == m.writes[|m.writes| - 1].length)
  {
    var limit := ChunkLimit(maxPayload);
    RunKeepsInvariant(limit, Machine(INITIAL, [], [], []), events);
    hide SwappedBytes, Sent, WellCut, GoodOutcome;
  }

  // ---- Writes that go well ----

  /** A chunk and its command byte fit one payload, and no larger even chunk does. */
  lemma ChunkLimitIsLargest(maxPayload: nat)
    requires 0 < maxPayload
    ensures var limit := ChunkLimit(maxPayload);
            && limit % 2 == 0 && limit + 1 <= maxPayload
            && forall n :: n % 2 == 0 && n + 1 <= maxPayload ==> n <= limit
  {
  }

  function Least(a: nat, b: nat): nat {
    if a < b then a else b
  }

  /** An idle device takes a write if the host takes its first chunk: exactly that chunk is sent,
      each pair of bytes exchanged, and the rest remains. Otherwise the device stays idle. */
  lemma IdleDeviceStartsWrite(limit: nat, d: Device, data: seq<Byte>, length: nat, accepted: bool)
    requires limit % 2 == 0 && Even(length) <= |data| && !d.ongoing
    ensures var (t, status) := MemWrite(limit, d, data, length, accepted);
            var n := Least(limit, length);
            if accepted then
              && status == Success && t.ongoing && t.inTransfer
              && t.data == data && t.position == Even(n) && t.remaining == length - n
              && |t.packets| == |d.packets| + 1 && t.packets[..|d.packets|] == d.packets
              && var p := t.packets[|d.packets|];
                 && p.command == WriteMemoryStart && |p.payload| == n
                 && forall i :: 0 <= i < n ==> p.payload[i] == data[if i % 2 == 0 then i + 1 else i - 1]
            else
              status == Fail && !t.ongoing && t.inTransfer == d.inTransfer && t.packets == d.packets
  {
  }

  /** What a completion leads to: the next chunk, or the end of the write with the status of the
      transfer, or with a failure if the host does not take the next chunk. */
  lemma CompletionGoesOnOrEnds(limit: nat, m: Machine, status: Status, accepted: bool)
    requires 0 < limit && limit % 2 == 0 && Invariant(limit, m) && m.device.ongoing
    ensures Possible(m, TransferDone(status, accepted))
    ensures var t, remaining := Apply(limit, m, TransferDone(status, accepted)), m.device.remaining;
            && t.writes == m.writes
            && if status == Success && 0 < remaining && accepted then
                 && t.device.ongoing && t.outcomes == m.outcomes
                 && t.device.remaining == remaining - Least(limit, remaining)
                 && |t.current| == |m.current| + 1 && t.current[..|m.current|] == m.current
                 && t.device.packets == m.device.packets + t.current[|m.current|..]
               else
                 && !t.device.ongoing && t.device.packets == m.device.packets
                 && t.outcomes == m.outcomes +
                      [Outcome(if status == Success && remaining == 0 then Success else Fail, m.current)]
  {
    hide SwappedBytes, Sent, WellCut, GoodOutcome;
    if !(status == Success && 0 < m.device.remaining && accepted) {
      var (d, _) := OnTransferDone(limit, m.device, status, accepted);
      assert NewPackets(m.device, d) == [];
      assert m.current + NewPackets(m.device, d) == m.current;
    }
  }

  /** How many transfers `length` bytes take; an empty write takes one. */
  function Transfers(limit: nat, length: nat): nat
    requires 0 < limit
    decreases length
  {
    if length <= limit then 1 else 1 + Transfers(limit, length - limit)
  }

  function Completions(n: nat): seq<Event> {
    seq(n, _ => TransferDone(Success, true))
  }

  /** The completions that are still to come end the write under way. */
  lemma {:induction false} CompletionsEndWrite(limit: nat, m: Machine, n: nat)
    requires 0 < limit && limit % 2 == 0 && Invariant(limit, m) && m.device.ongoing
    requires n == if m.device.remaining == 0 then 1 else 1 + Transfers(limit, m.device.remaining)
    ensures var t := Run(limit, m, Completions(n));
            && Invariant(limit, t) && !t.device.ongoing && t.writes == m.writes
            && |t.outcomes| == |m.outcomes| + 1 && t.outcomes[..|m.outcomes|] == m.outcomes
            && t.outcomes[|m.outcomes|].status == Success
            && |t.outcomes[|m.outcomes|].packets| == |m.current| + n - 1
    decreases m.device.remaining
  {
    var e := TransferDone(Success, true);
    CompletionGoesOnOrEnds(limit, m, Success, true);
    TransferDoneKeepsInvariant(limit, m, Success, true);
    var t := Apply(limit, m, e);
    hide SwappedBytes, Sent, WellCut, GoodOutcome, InWrite;
    assert Completions(n)[0] == e && Completions(n)[1..] == Completions(n - 1);
    assert Run(limit, m, Completions(n)) == Run(limit, t, Completions(n - 1));
    if m.device.remaining > 0 {
      hide Invariant, Apply;
      CompletionsEndWrite(limit, t, n - 1);
    }
  }

  /** A write to an idle device whose chunks the host all takes and completes ends with one
      outcome, success, and has sent each of its bytes, pairs exchanged, in as few packets as
      the limit allows. */
  lemma WriteIsSent(limit: nat, m: Machine, w: Write)
    requires 0 < limit && limit % 2 == 0 && Invariant(limit, m) && !m.device.ongoing && Even(w.length) <= |w.data|
    ensures var t := Run(limit, m, [CallMemWrite(w, true)] + Completions(Transfers(limit, w.length)));
            && !t.device.ongoing && t.writes == m.writes + [w]
            && |t.outcomes| == |m.outcomes| + 1 && t.outcomes[..|m.outcomes|] == m.outcomes
            && var o := t.outcomes[|m.outcomes|];
               && o.status == Success && |o.packets| == Transfers(limit, w.length) && |Sent(o.packets)| == w.length
               && forall i :: 0 <= i < w.length ==>
                    Sent(o.packets)[i] == w.data[if i % 2 == 0 then i + 1 else i - 1]
  {
    hide Invariant, Apply, SwappedBytes, Sent, GoodOutcome, InWrite;
    var n := Transfers(limit, w.length);
    var events, started := [CallMemWrite(w, true)] + Completions(n), Apply(limit, m, CallMemWrite(w, true));
    assert events[1..] == Completions(n);
    assert Run(limit, m, events) == Run(limit, started, Completions(n));
    WriteStarts(limit, m, w);
    CompletionsEndWrite(limit, started, n);
    hide Run;
    OutcomeIsWhole(limit, Run(limit, started, Completions(n)), |m.outcomes|, w);
  }

  lemma WriteStarts(limit: nat, m: Machine, w: Write)
    requires 0 < limit && limit % 2 == 0 && Invariant(limit, m) && !m.device.ongoing && Even(w.length) <= |w.data|
    ensures var t := Apply(limit, m, CallMemWrite(w, true));
            && Invariant(limit, t) && t.device.ongoing && t.device.remaining == w.length - Least(limit, w.length)
            && |t.current| == 1 && t.writes == m.writes + [w] && t.outcomes == m.outcomes
            && |m.writes| == |m.outcomes|
  {
    IdleDeviceStartsWrite(limit, m.device, w.data, w.length, true);
    MemWriteKeepsInvariant(limit, m, w, true);
    hide SwappedBytes, Sent, WellCut, InWrite, GoodOutcome;
  }

  /** A successful outcome is the whole of its write, pairs exchanged. */
  lemma OutcomeIsWhole(limit: nat, m: Machine, k: nat, w: Write)
    requires Invariant(limit, m) && k < |m.outcomes| && m.outcomes[k].status == Success && m.writes[k] == w
    ensures |Sent(m.outcomes[k].packets)| == w.length && Even(w.length) <= |w.data|
    ensures forall i :: 0 <= i < w.length ==>
              Sent(m.outcomes[k].packets)[i] == w.data[if i % 2 == 0 then i + 1 else i - 1]
  {
    assert GoodOutcome(limit, m.writes[k], m.outcomes[k]);
    hide Invariant, Sent, WellCut;
    SwappedAt(w.data, w.length);
    hide SwappedBytes;
  }

  lemma SwappedAt(data: seq<Byte>, n: nat)
    requires Even(n) <= |data|
    ensures forall i :: 0 <= i < n ==> SwappedBytes(data, n)[i] == data[if i % 2 == 0 then i + 1 else i - 1]
  {
  }

  // ---- The device object ----

  lemma SwapNothing(data: seq<Byte>)
    ensures SwappedBytes(data, 0) == []
  {
  }

  lemma SwapOnePair(data: seq<Byte>, i: nat)
    requires i % 2 == 0 && i + 2 <= |data|
    ensures SwappedBytes(data, i + 2) == SwappedBytes(data, i) + [data[i + 1], data[i]]
  {
  }

  lemma SwappedPrefix(data: seq<Byte>, m: nat, n: nat)
    requires n <= m && Even(m) <= |data|
    ensures SwappedBytes(data, n) == SwappedBytes(data, m)[..n]
  {
  }

  /** The driver's write context with its transmit buffer, and the DSI host as it sees it. */
  class MCUXpressoDevice {
    var ongoing: bool
    var memory: seq<Byte>
    var txData: nat
    var numBytesRemaining: nat
    var dscCmd: Command
    const tmpArray: array<Byte>
    var hostPackets: seq<Packet>
    var hostBusy: bool

    ghost predicate Valid() {
      tmpArray.Length % 2 == 0
    }

    ghost function Current(): Device
      reads this
    {
      Device(ongoing, memory, txData, numBytesRemaining, dscCmd, hostPackets, hostBusy)
    }

    constructor (maxPayload: nat)
      requires 0 < maxPayload
      ensures Valid() && Current() == INITIAL
      ensures tmpArray.Length == ChunkLimit(maxPayload) && fresh(tmpArray)
    {
      ongoing, memory, txData, numBytesRemaining, dscCmd := false, [], 0, 0, WriteMemoryStart;
      hostPackets, hostBusy := [], false;
      tmpArray := new Byte[ChunkLimit(maxPayload)](_ => 0);
    }

    /** DSI_TransferNonBlocking: the host takes the bytes, or refuses. */
    method TransferNonBlocking(length: nat, command: Command, accepted: bool) returns (status: Status)
      requires length <= tmpArray.Length
      modifies this`hostPackets, this`hostBusy
      ensures status == if accepted then Success else Fail
      ensures if accepted then hostBusy && hostPackets == old(hostPackets) + [Packet(command, tmpArray[..length])]
              else hostBusy == old(hostBusy) && hostPackets == old(hostPackets)
    {
      if accepted {
        hostPackets := hostPackets + [Packet(command, tmpArray[..length])];
        hostBusy := true;
        return Success;
      }
      return Fail;
    }

    /** The loop that copies and swaps. */
    method FillBuffer(length: nat)
      requires Valid() && length <= tmpArray.Length && txData + Even(length) <= |memory|
      modifies this`txData, tmpArray
      ensures txData == old(txData) + Even(length)
      ensures tmpArray[..length] == SwappedBytes(memory[old(txData)..], length)
    {
      hide SwappedBytes;
      ghost var rest := memory[txData..];
      SwapNothing(rest);
      var i := 0;
      while i < length
        invariant i % 2 == 0 && i <= Even(length) <= tmpArray.Length
        invariant txData == old(txData) + i
        invariant tmpArray[..i] == SwappedBytes(rest, i)
      {
        SwapOnePair(rest, i);
        assert rest[i] == memory[txData] && rest[i + 1] == memory[txData + 1];
        tmpArray[i] := memory[txData + 1];
        tmpArray[i + 1] := memory[txData];
        txData := txData + 2;
        i := i + 2;
      }
      SwappedPrefix(rest, i, length);
      assert tmpArray[..length] == tmpArray[..i][..length];
    }

    method SendChunck(accepted: bool) returns (status: Status)
      requires Valid() && Readable(Current())
      modifies this, tmpArray
      ensures (Current(), status) == SendChunk(tmpArray.Length, old(Current()), accepted)
    {
      var curSendLen := if tmpArray.Length > numBytesRemaining then numBytesRemaining else tmpArray.Length;
      var command := dscCmd;
      FillBuffer(curSendLen);
      numBytesRemaining := numBytesRemaining - curSendLen;
      dscCmd := WriteMemoryContinue;
      status := TransferNonBlocking(curSendLen, command, accepted);
    }

    method DsiMemWrite(data: seq<Byte>, length: nat, accepted: bool) returns (status: Status)
      requires Valid() && Even(length) <= |data|
      modifies this, tmpArray
      ensures (Current(), status) == MemWrite(tmpArray.Length, old(Current()), data, length, accepted)
    {
      if ongoing {
        return Fail;
      }
      ongoing := true;
      memory, txData := data, 0;
      numBytesRemaining := length;
      dscCmd := WriteMemoryStart;
      status := SendChunck(accepted);
      if status != Success {
        ongoing := false;
      }
    }

    /** `done` is the status given to the done-callback, if it is called. */
    method DsiMemWriteCallback(transferStatus: Status, accepted: bool) returns (done: Option<Status>)
      requires Valid() && Readable(Current())
      modifies this, tmpArray
      ensures (Current(), done) == OnTransferDone(tmpArray.Length, old(Current()), transferStatus, accepted)
    {
      hostBusy := false;
      var status := transferStatus;
      if status == Success && numBytesRemaining > 0 {
        status := SendChunck(accepted);
        if status == Success {
          return None;
        }
      }
      ongoing := false;
      done := Some(status);
    }
  }
}
