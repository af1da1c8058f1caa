/** Fixed-width binary, most significant bit first. */
module BitStrings {
  import opened Framebuffers

  function Pow2(n: nat): (r: nat)
    ensures 0 < r
  {
    if n == 0 then 1 else 2 * Pow2(n - 1)
  }

  function Bits(v: nat, n: nat): (b: seq<bool>)
    ensures |b| == n
  {
    if n == 0 then [] else Bits(v / 2, n - 1) + [v % 2 == 1]
  }

  /** Each bit is what shifting right and masking gives. */
  lemma {:induction false} BitAt(v: nat, n: nat, i: nat)
    requires i < n
    ensures Bits(v, n)[i] <==> v / Pow2(n - i - 1) % 2 == 1
  {
    if i == n - 1 {
    } else {
      var p := Pow2(n - i - 2);
      BitAt(v / 2, n - 1, i);
      assert Pow2(n - i - 1) == 2 * p;
      hide Pow2;
      HalveThenDivide(v, p);
    }
  }

  lemma HalveThenDivide(v: nat, p: nat)
    requires 0 < p
    ensures v / (2 * p) == v / 2 / p
  {
    var q := v / 2 / p;
    assert v / 2 == q * p + v / 2 % p;
    assert v == q * (2 * p) + (2 * (v / 2 % p) + v % 2);
    RowOfIndex(2 * (v / 2 % p) + v % 2, q, 2 * p);
  }

  lemma {:induction false} BitsOfSum(low: nat, high: nat, m: nat, n: nat)
    requires low < Pow2(n)
    ensures Bits(low + Pow2(n) * high, m + n) == Bits(high, m) + Bits(low, n)
  {
    if n == 0 {
    } else {
      var p := Pow2(n - 1);
      assert Pow2(n) == 2 * p;
      hide Pow2;
      HalveSum(low, p, high);
      BitsOfSum(low / 2, high, m, n - 1);
    }
  }

  lemma HalveSum(low: nat, p: nat, high: nat)
    ensures (low + 2 * p * high) / 2 == low / 2 + p * high
    ensures (low + 2 * p * high) % 2 == low % 2
  {
    var h := p * high;
    assert 2 * p * high == 2 * h;
  }

  /** A 32-bit little-endian load of two adjacent 16-bit values has the second one on top. */
  lemma BitsOfPair(low: nat, high: nat)
    requires low < 65536
    ensures Bits(low + 65536 * high, 32) == Bits(high, 16) + Bits(low, 16)
  {
    assert Pow2(8) == 256;
    assert Pow2(16) == 65536;
    BitsOfSum(low, high, 16, 16);
  }
}

/** The st7789_pixel_double program and the part of an RP2040 PIO state machine that runs
    it (RP2040 datasheet, section 3.4): output shift register shifting left, autopull off,
    pull threshold 32, one OUT pin, and one optional side-set pin which is the panel's clock. */
module Pio {
  import opened Framebuffers
  import opened BitStrings

  const PROGRAM: seq<U16> := [
    0x80a0, 0xa027, 0x6050, 0x7001, 0x18e3, 0xa0e1, 0x6070, 0x7001, 0x18e7,
    0xa0e2, 0x6070, 0x7001, 0x18eb, 0xa0e2, 0x6070, 0x7001, 0x18ef]
  const WRAP_TARGET := 0
  const WRAP := 16
  const PULL_THRESHOLD := 32

  /** A 32-bit register or FIFO entry, most significant bit first. */
  type Word = w: seq<bool> | |w| == 32 witness seq(32, _ => false)

  datatype Op =
    | Jmp(cond: nat, target: nat)
    | Out(dest: nat, count: nat)
    | Pull(ifEmpty: bool, block: bool)
    | Mov(dest: nat, mode: nat, source: nat)
    | Other

  datatype Instruction = Instruction(op: Op, side: Option<bool>, delay: nat)

  /** Instruction encoding with two side-set bits, the upper of which is the enable. */
  function Decode(w: U16): Instruction {
    var opcode, field, arg := w / 8192, w / 256 % 32, w % 256;
    var op :=
      if opcode == 0 then Jmp(arg / 32, arg % 32)
      else if opcode == 3 then Out(arg / 32, if arg % 32 == 0 then 32 else arg % 32)
      else if opcode == 4 && arg / 128 == 1 then Pull(arg / 64 % 2 == 1, arg / 32 % 2 == 1)
      else if opcode == 5 then Mov(arg / 32, arg / 8 % 4, arg % 8)
      else Other;
    Instruction(op, if field / 16 == 1 then Some(field / 8 % 2 == 1) else None, field % 8)
  }

  datatype Sm = Sm(pc: nat, osr: Word, shifted: nat, x: Word, y: Word, pin: bool, clock: bool)

  /** One executed instruction: the new state, the words left in the TX FIFO, and the bit the
      panel samples if this instruction raised the clock. */
  datatype Outcome = Outcome(sm: Sm, fifo: seq<Word>, sampled: seq<bool>)

  function Zeros(n: nat): seq<bool> {
    seq(n, _ => false)
  }

  /** The effect of an operation on registers and FIFO; None if the machine stalls, or if the
      operation is not one that the program uses. */
  function Execute(op: Op, s: Sm, fifo: seq<Word>): Option<(Sm, seq<Word>)> {
    var next := s.(pc := if s.pc == WRAP then WRAP_TARGET else s.pc + 1);
    match op
    case Jmp(cond, target) =>
      if cond == 0 then Some((s.(pc := target), fifo))
      else if cond == 7 then Some((if s.shifted < PULL_THRESHOLD then s.(pc := target) else next, fifo))
      else None
    case Out(dest, count) =>
      if 1 <= count <= 32 then
        var out: Word := Zeros(32 - count) + s.osr[..count];
        var shiftedOut := next.(osr := s.osr[count..] + Zeros(count),
                                shifted := if s.shifted + count > 32 then 32 else s.shifted + count);
        match dest
        case 0 => Some((shiftedOut.(pin := out[31]), fifo))
        case 1 => Some((shiftedOut.(x := out), fifo))
        case 2 => Some((shiftedOut.(y := out), fifo))
        case 3 => Some((shiftedOut, fifo))
        case _ => None
      else None
    case Pull(false, true) =>
      if fifo == [] then None else Some((next.(osr := fifo[0], shifted := 0), fifo[1..]))
    case Mov(dest, 0, source) =>
      var v := ReadSource(s, source);
      if v.None? then None
      else if dest == 1 then Some((next.(x := v.value), fifo))
      else if dest == 2 then Some((next.(y := v.value), fifo))
      else if dest == 7 then Some((next.(osr := v.value, shifted := 0), fifo))
      else None
    case _ => None
  }

  function ReadSource(s: Sm, source: nat): Option<Word> {
    match source
    case 1 => Some(s.x)
    case 2 => Some(s.y)
    case 7 => Some(s.osr)
    case _ => None
  }

  /** Fetch, decode and execute one instruction; None while the machine cannot proceed. */
  function Step(s: Sm, fifo: seq<Word>): Option<Outcome> {
    if s.pc >= |PROGRAM| then None
    else
      var i := Decode(PROGRAM[s.pc]);
      match Execute(i.op, s, fifo)
      case None => None
      case Some((t, rest)) =>
        var t := if i.side.Some? then t.(clock := i.side.value) else t;
        Some(Outcome(t, rest, if t.clock && !s.clock then [t.pin] else []))
  }

  // ---- What the program does ----

  function Low(w: Word): seq<bool> {
    w[16..]
  }

  function High(w: Word): seq<bool> {
    w[..16]
  }

  /** A word holds two pixels, the first in the low half; each is to be sent twice. */
  function DoubledWord(w: Word): seq<bool> {
    Low(w) + Low(w) + High(w) + High(w)
  }

  function DoubledWords(ws: seq<Word>): seq<bool> {
    if ws == [] then [] else DoubledWord(ws[0]) + DoubledWords(ws[1..])
  }

  /** The bits of the pixel being sent that the panel has not sampled yet. */
  function OwedNow(s: Sm): seq<bool> {
    var inShifter := if s.shifted <= 32 then s.osr[..32 - s.shifted] else [];
    if s.pc in {3, 7, 11, 15} then inShifter
    else if s.pc in {4, 8, 12, 16} then [s.pin] + inShifter
    else if s.pc in {6, 10, 14} then Low(s.osr)
    else []
  }

  /** The bits of the pixels that will be reloaded from X and Y after that. */
  function OwedLater(s: Sm): seq<bool> {
    if s.pc in {1, 2} then DoubledWord(s.osr)
    else if s.pc in {3, 4, 5} then Low(s.x) + Low(s.y) + Low(s.y)
    else if s.pc in {6, 7, 8, 9} then Low(s.y) + Low(s.y)
    else if s.pc in {10, 11, 12, 13} then Low(s.y)
    else []
  }

  /** All the bits of the current word that the panel has not sampled yet. */
  function Owed(s: Sm): seq<bool> {
    OwedNow(s) + OwedLater(s)
  }

  /** What holds between instructions: how full the shifter is and where the clock is. */
  predicate Consistent(s: Sm) {
    && s.pc <= WRAP
    && (s.pc in {1, 2, 6, 10, 14} ==> s.shifted == 0)
    && (s.pc == 2 ==> s.x == s.osr)
    && (s.pc in {3, 7, 11, 15} ==> 16 <= s.shifted < 32)
    && (s.pc in {4, 8, 12, 16} ==> 17 <= s.shifted <= 32 && !s.clock)
  }

  lemma DecodedProgram(pc: nat)
    requires pc <= WRAP
    ensures Decode(PROGRAM[pc]) ==
            if pc == 0 then Instruction(Pull(false, true), None, 0)
            else if pc == 1 then Instruction(Mov(1, 0, 7), None, 0)
            else if pc == 2 then Instruction(Out(2, 16), None, 0)
            else if pc in {3, 7, 11, 15} then Instruction(Out(0, 1), Some(false), 0)
            else if pc in {4, 8, 12, 16} then Instruction(Jmp(7, pc - 1), Some(true), 0)
            else if pc == 5 then Instruction(Mov(7, 0, 1), None, 0)
            else if pc in {6, 10, 14} then Instruction(Out(3, 16), None, 0)
            else Instruction(Mov(7, 0, 2), None, 0)
  {
    hide Decode;
    if pc in {3, 7, 11, 15} || pc in {4, 8, 12, 16} {
      DecodedLoop(pc);
    } else if pc in {0, 1, 2} {
      DecodedLoads(pc);
    } else {
      DecodedMoves(pc);
    }
  }

  lemma DecodedLoop(pc: nat)
    requires pc in {3, 7, 11, 15} || pc in {4, 8, 12, 16}
    ensures Decode(PROGRAM[pc]) ==
            if pc in {3, 7, 11, 15} then Instruction(Out(0, 1), Some(false), 0)
            else Instruction(Jmp(7, pc - 1), Some(true), 0)
  {
  }

  lemma DecodedLoads(pc: nat)
    requires pc in {0, 1, 2}
    ensures Decode(PROGRAM[pc]) ==
            if pc == 0 then Instruction(Pull(false, true), None, 0)
            else if pc == 1 then Instruction(Mov(1, 0, 7), None, 0)
            else Instruction(Out(2, 16), None, 0)
  {
  }

  lemma DecodedMoves(pc: nat)
    requires pc in {5, 6, 9, 10, 13, 14}
    ensures Decode(PROGRAM[pc]) ==
            if pc == 5 then Instruction(Mov(7, 0, 1), None, 0)
            else if pc in {6, 10, 14} then Instruction(Out(3, 16), None, 0)
            else Instruction(Mov(7, 0, 2), None, 0)
  {
  }

  /** What one instruction must do: account for every bit. */
  predicate Pays(s: Sm, fifo: seq<Word>, o: Outcome) {
    && Consistent(o.sm)
    && o.sampled + Owed(o.sm) == Owed(s) + (if s.pc == 0 && fifo != [] then DoubledWord(fifo[0]) else [])
    && o.fifo == (if s.pc == 0 && fifo != [] then fifo[1..] else fifo)
  }

  lemma PaysByParts(s: Sm, fifo: seq<Word>, o: Outcome)
    requires Consistent(o.sm) && s.pc != 0 && o.fifo == fifo
    requires o.sampled + OwedNow(o.sm) == OwedNow(s) && OwedLater(o.sm) == OwedLater(s)
    ensures Pays(s, fifo, o)
  {
    hide OwedNow, OwedLater;
  }

  lemma LoadStep(s: Sm, fifo: seq<Word>)
    requires s.pc in {0, 1, 2}
    ensures Step(s, fifo) ==
            if s.pc == 0 then
              if fifo == [] then None
              else Some(Outcome(s.(pc := 1, osr := fifo[0], shifted := 0), fifo[1..], []))
            else if s.pc == 1 then Some(Outcome(s.(pc := 2, x := s.osr), fifo, []))
            else
              var rest := if s.shifted + 16 > 32 then 32 else s.shifted + 16;
              Some(Outcome(s.(pc := 3, y := Zeros(16) + High(s.osr), osr := Low(s.osr) + Zeros(16), shifted := rest),
                           fifo, []))
  {
    DecodedProgram(s.pc);
    hide Decode;
  }

  lemma LoadPays(s: Sm, fifo: seq<Word>)
    requires Consistent(s) && s.pc in {0, 1, 2}
    ensures Step(s, fifo).None? <==> s.pc == 0 && fifo == []
    ensures Step(s, fifo).Some? ==> Pays(s, fifo, Step(s, fifo).value)
  {
    LoadStep(s, fifo);
    hide Step;
    if s.pc == 2 {
      var o := Step(s, fifo).value;
      assert Low(o.sm.y) == High(s.osr);
      assert OwedNow(o.sm) == Low(s.osr);
      hide Low, High;
      assert Low(s.osr) + (Low(s.osr) + High(s.osr) + High(s.osr)) == DoubledWord(s.osr);
    } else {
      hide Low, High;
    }
  }

  /** A bit is put on the pin while the clock is low ... */
  lemma PinStep(s: Sm, fifo: seq<Word>)
    requires s.pc in {3, 7, 11, 15} && s.shifted < 32
    ensures Step(s, fifo) ==
            Some(Outcome(s.(pc := s.pc + 1, osr := s.osr[1..] + Zeros(1), shifted := s.shifted + 1,
                            pin := s.osr[0], clock := false), fifo, []))
  {
    DecodedProgram(s.pc);
    hide Decode;
    assert (Zeros(31) + s.osr[..1])[31] == s.osr[0];
  }

  lemma ShiftedByOne(w: Word, k: nat)
    requires 1 <= k <= 32
    ensures [w[0]] + (w[1..] + Zeros(1))[..k - 1] == w[..k]
  {
  }

  lemma PinPays(s: Sm, fifo: seq<Word>)
    requires Consistent(s) && s.pc in {3, 7, 11, 15}
    ensures Step(s, fifo).Some? && Pays(s, fifo, Step(s, fifo).value)
  {
    PinStep(s, fifo);
    ShiftedByOne(s.osr, 32 - s.shifted);
    hide Step, Pays, Low, High, Zeros;
    PaysByParts(s, fifo, Step(s, fifo).value);
  }

  /** ... and sampled when the following jump raises it. */
  lemma JumpStep(s: Sm, fifo: seq<Word>)
    requires s.pc in {4, 8, 12, 16} && !s.clock
    ensures Step(s, fifo) ==
            Some(Outcome(s.(pc := if s.shifted < 32 then s.pc - 1 else if s.pc == 16 then 0 else s.pc + 1,
                            clock := true), fifo, [s.pin]))
  {
    DecodedProgram(s.pc);
    hide Decode;
  }

  lemma JumpPays(s: Sm, fifo: seq<Word>)
    requires Consistent(s) && s.pc in {4, 8, 12, 16}
    ensures Step(s, fifo).Some? && Pays(s, fifo, Step(s, fifo).value)
  {
    JumpStep(s, fifo);
    hide Step, Pays, Low, High;
    PaysByParts(s, fifo, Step(s, fifo).value);
  }

  /** A pixel is loaded again from X or Y ... */
  lemma MoveBackStep(s: Sm, fifo: seq<Word>)
    requires s.pc in {5, 9, 13}
    ensures Step(s, fifo) ==
            Some(Outcome(s.(pc := s.pc + 1, osr := if s.pc == 5 then s.x else s.y, shifted := 0), fifo, []))
  {
    DecodedProgram(s.pc);
    hide Decode;
  }

  /** ... and the half of the register that is not wanted is discarded. */
  lemma DiscardStep(s: Sm, fifo: seq<Word>)
    requires s.pc in {6, 10, 14} && s.shifted == 0
    ensures Step(s, fifo) ==
            Some(Outcome(s.(pc := s.pc + 1, osr := Low(s.osr) + Zeros(16), shifted := 16), fifo, []))
  {
    DecodedProgram(s.pc);
    hide Decode;
  }

  lemma MoveBackPays(s: Sm, fifo: seq<Word>)
    requires Consistent(s) && s.pc in {5, 9, 13}
    ensures Step(s, fifo).Some? && Pays(s, fifo, Step(s, fifo).value)
  {
    MoveBackStep(s, fifo);
    hide Step, Low, High, Zeros;
    assert Owed(Step(s, fifo).value.sm) == Owed(s);
    hide Owed;
  }

  lemma DiscardPays(s: Sm, fifo: seq<Word>)
    requires Consistent(s) && s.pc in {6, 10, 14}
    ensures Step(s, fifo).Some? && Pays(s, fifo, Step(s, fifo).value)
  {
    DiscardStep(s, fifo);
    hide Step, Pays;
    var o := Step(s, fifo).value;
    assert OwedNow(o.sm) == Low(s.osr);
    hide Low;
    PaysByParts(s, fifo, o);
  }

  /** One instruction moves bits from "owed" to "sampled"; only the pull adds to the debt,
      and only an empty FIFO stops the machine. */
  lemma StepPaysWhatIsOwed(s: Sm, fifo: seq<Word>)
    requires Consistent(s)
    ensures Step(s, fifo).None? <==> s.pc == 0 && fifo == []
    ensures Step(s, fifo).Some? ==> Pays(s, fifo, Step(s, fifo).value)
  {
    hide Decode, Step, Pays;
    if s.pc in {0, 1, 2} {
      LoadPays(s, fifo);
    } else if s.pc in {3, 7, 11, 15} {
      PinPays(s, fifo);
    } else if s.pc in {4, 8, 12, 16} {
      JumpPays(s, fifo);
    } else if s.pc in {5, 9, 13} {
      MoveBackPays(s, fifo);
    } else {
      DiscardPays(s, fifo);
    }
  }

  /** Instructions left before the machine pulls again. */
  function Work(s: Sm): int {
    var bits := 2 * (32 - s.shifted);
    match s.pc
    case 1 => 136
    case 2 => 135
    case 3 => bits + 102
    case 4 => bits + 103
    case 5 => 102
    case 6 => 101
    case 7 => bits + 68
    case 8 => bits + 69
    case 9 => 68
    case 10 => 67
    case 11 => bits + 34
    case 12 => bits + 35
    case 13 => 34
    case 14 => 33
    case 15 => bits
    case 16 => bits + 1
    case _ => 0
  }

  /** Every word takes exactly 137 instructions, from one pull to the next. */
  lemma StepDoesWork(s: Sm, fifo: seq<Word>)
    requires Consistent(s) && (s.pc == 0 ==> fifo != [])
    ensures 0 <= Work(s) && (Work(s) == 0 <==> s.pc == 0)
    ensures Step(s, fifo).Some?
    ensures Work(Step(s, fifo).value.sm) == if s.pc == 0 then 136 else Work(s) - 1
  {
    hide Decode, Step, Low, High;
    if s.pc in {0, 1, 2} {
      LoadStep(s, fifo);
    } else if s.pc in {3, 7, 11, 15} {
      PinStep(s, fifo);
    } else if s.pc in {4, 8, 12, 16} {
      JumpStep(s, fifo);
    } else if s.pc in {5, 9, 13} {
      MoveBackStep(s, fifo);
    } else {
      DiscardStep(s, fifo);
    }
  }
}
