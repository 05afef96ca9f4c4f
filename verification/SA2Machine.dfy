/** The SA2 bytecode machine: a 32-bit register, a carry flag, an instruction
    pointer and a stack of counted loops.

    `State` and `Step` say what one instruction does; the class `SA2SeedKey` is
    the machine itself, whose methods change its fields one after the other. */
module SA2Machine {
  import opened Words

  type Tape = seq<bv8>

  /** The exceptions an instruction can raise. */
  datatype Fault = UnknownOpcode | MissingOperand | EmptyLoopStack

  /** One running loop: where its body starts, and how often it repeats after
      the present pass (-1 for a loop entered with operand zero). */
  datatype Frame = Frame(start: nat, remaining: int)

  /** The register and the carry flag: what the arithmetic instructions touch. */
  datatype Core = Core(register: bv32, carry: bv32)

  datatype State = State(core: Core, ip: nat, loops: seq<Frame>)

  /** An instruction either completes or raises in the state it had reached. */
  datatype StepResult = Next(state: State) | Raised(fault: Fault, at: State)

  // ----- arithmetic -----

  function RotateLeftThroughCarry(c: Core): Core {
    Core(RotLeft1(c.register), c.register & 0x8000_0000)
  }

  function RotateRightThroughCarry(c: Core): Core {
    Core(RotRight1(c.register), c.register & 1)
  }

  /** Addition modulo 2^32; the carry is what does not fit. */
  function AddTo(c: Core, operand: bv32): Core {
    Core(Sum(c.register, operand), if Value(c.register) + Value(operand) > 0xFFFF_FFFF then 1 else 0)
  }

  /** Subtraction modulo 2^32.  A signed difference never exceeds 2^32 - 1, so
      borrowing does not set the carry. */
  function SubtractFrom(c: Core, operand: bv32): Core {
    Core(Difference(c.register, operand), 0)
  }

  function XorInto(c: Core, operand: bv32): Core {
    c.(register := Xor(c.register, operand))
  }

  // ----- operands -----

  predicate HasWord(tape: Tape, ip: nat) { ip + 4 < |tape| }

  function WordAt(tape: Tape, ip: nat): bv32
    requires HasWord(tape, ip)
  {
    Word(tape[ip + 1], tape[ip + 2], tape[ip + 3], tape[ip + 4])
  }

  predicate HasByte(tape: Tape, ip: nat) { ip + 1 < |tape| }

  function ByteAt(tape: Tape, ip: nat): (n: nat)
    requires HasByte(tape, ip)
    ensures n < 256
  {
    Nat8(tape[ip + 1])
  }

  // ----- one instruction -----

  function Advance(s: State, core: Core, length: nat): State {
    s.(core := core, ip := s.ip + length)
  }

  /** Add, subtract and exclusive-or.  The first two clear the carry before
      they fetch their operand, so they leave it cleared when the fetch fails. */
  function Arithmetic(tape: Tape, s: State): StepResult
    requires s.ip < |tape| && tape[s.ip] in {0x93, 0x84, 0x87}
  {
    if !HasWord(tape, s.ip) then
      Raised(MissingOperand, if tape[s.ip] == 0x87 then s else s.(core := s.core.(carry := 0)))
    else
      var operand := WordAt(tape, s.ip);
      Next(Advance(s,
        if tape[s.ip] == 0x93 then AddTo(s.core, operand)
        else if tape[s.ip] == 0x84 then SubtractFrom(s.core, operand)
        else XorInto(s.core, operand), 5))
  }

  function LoopEntry(tape: Tape, s: State): StepResult {
    if !HasByte(tape, s.ip) then Raised(MissingOperand, s)
    else Next(s.(ip := s.ip + 2, loops := [Frame(s.ip + 2, ByteAt(tape, s.ip) - 1)] + s.loops))
  }

  function LoopEnd(s: State): StepResult {
    if s.loops == [] then Raised(EmptyLoopStack, s)
    else
      var frame := s.loops[0];
      if frame.remaining > 0 then
        Next(s.(ip := frame.start, loops := [frame.(remaining := frame.remaining - 1)] + s.loops[1..]))
      else
        Next(s.(ip := s.ip + 1, loops := s.loops[1..]))
  }

  function Branch(tape: Tape, s: State, taken: bool): StepResult {
    if !HasByte(tape, s.ip) then Raised(MissingOperand, s)
    else Next(Advance(s, s.core, if taken then ByteAt(tape, s.ip) + 2 else 2))
  }

  function Step(tape: Tape, s: State): StepResult
    requires s.ip < |tape|
  {
    match tape[s.ip]
    case 0x81 => Next(Advance(s, RotateLeftThroughCarry(s.core), 1))
    case 0x82 => Next(Advance(s, RotateRightThroughCarry(s.core), 1))
    case 0x93 => Arithmetic(tape, s)
    case 0x84 => Arithmetic(tape, s)
    case 0x87 => Arithmetic(tape, s)
    case 0x68 => LoopEntry(tape, s)
    case 0x49 => LoopEnd(s)
    case 0x4A => Branch(tape, s, s.core.carry == 0)
    case 0x6B => Branch(tape, s, true)
    case 0x4C => Next(Advance(s, s.core, 1))
    case _ => Raised(UnknownOpcode, s)
  }

  // ----- the measure: every tape terminates -----

  function Power16(n: nat): nat {
    if n == 0 then 1 else 16 * Power16(n - 1)
  }

  /** The steps that the tape from `p` on is worth. */
  function Weight(tape: Tape, p: nat): nat {
    Power16(if p < |tape| then |tape| - p else 0)
  }

  function LoopWeight(tape: Tape, loops: seq<Frame>): nat {
    if loops == [] then 0
    else
      (if loops[0].remaining > 0 then loops[0].remaining * Weight(tape, loops[0].start) else 0)
      + LoopWeight(tape, loops[1..])
  }

  function Measure(tape: Tape, s: State): nat {
    Weight(tape, s.ip) + LoopWeight(tape, s.loops)
  }

  lemma {:induction false} Power16Grows(m: nat, n: nat)
    requires m <= n
    ensures 1 <= Power16(m) <= Power16(n)
    decreases n
  {
    if m < n {
      Power16Grows(m, n - 1);
    } else if m != 0 {
      Power16Grows(m - 1, n - 1);
    }
  }

  lemma WeightDrops(tape: Tape, p: nat, q: nat)
    requires p < |tape| && p < q
    ensures 1 <= Weight(tape, q) && 16 * Weight(tape, q) <= Weight(tape, p)
  {
    var n := |tape| - p;
    Power16Grows(if q < |tape| then |tape| - q else 0, n - 1);
  }

  lemma EntryDrops(tape: Tape, p: nat, n: nat)
    requires p + 1 < |tape| && n < 256
    ensures Weight(tape, p + 2) + (if n > 1 then (n - 1) * Weight(tape, p + 2) else 0) < Weight(tape, p)
  {
    WeightDrops(tape, p, p + 1);
    WeightDrops(tape, p + 1, p + 2);
    var w := Weight(tape, p + 2);
    assert 256 * w <= Weight(tape, p);
    if n > 1 {
      assert w + (n - 1) * w == n * w;
      assert n * w <= 255 * w;
    }
  }

  /** Every completed instruction, on any tape and from any state, makes the
      measure smaller. */
  lemma StepDecreases(tape: Tape, s: State)
    requires s.ip < |tape| && Step(tape, s).Next?
    ensures Measure(tape, Step(tape, s).state) < Measure(tape, s)
  {
    var t := Step(tape, s).state;
    var op := tape[s.ip];
    if op == 0x68 {
      EntryDrops(tape, s.ip, ByteAt(tape, s.ip));
      assert t.loops[1..] == s.loops;
    } else if op == 0x49 {
      var frame := s.loops[0];
      if frame.remaining > 0 {
        assert t.loops[1..] == s.loops[1..];
        var w := Weight(tape, frame.start);
        assert frame.remaining * w == w + (frame.remaining - 1) * w;
        WeightDrops(tape, s.ip, s.ip + 1);
      } else {
        WeightDrops(tape, s.ip, s.ip + 1);
      }
    } else {
      WeightDrops(tape, s.ip, t.ip);
    }
  }

  // ----- whole runs -----

  /** How a run ends: past the end of the tape, or in an exception. */
  datatype Outcome = Halted(state: State) | Faulted(fault: Fault, at: State)

  function Run(tape: Tape, s: State): Outcome
    decreases Measure(tape, s)
  {
    if s.ip >= |tape| then Halted(s)
    else
      match Step(tape, s)
      case Raised(fault, at) => Faulted(fault, at)
      case Next(t) => StepDecreases(tape, s); Run(tape, t)
  }

  /** The state after `n` completed instructions, if that many complete. */
  datatype Reached = At(state: State) | Stopped

  function After(tape: Tape, s: State, n: nat): Reached
    decreases n
  {
    if n == 0 then At(s)
    else if s.ip >= |tape| then Stopped
    else
      match Step(tape, s)
      case Raised(_, _) => Stopped
      case Next(t) => After(tape, t, n - 1)
  }

  /** Termination with a bound: no run completes more instructions than its
      measure, whatever the tape and whatever the loop stack at the start. */
  lemma {:induction false} StepsAreBounded(tape: Tape, s: State, n: nat)
    requires After(tape, s, n).At?
    ensures n + Measure(tape, After(tape, s, n).state) <= Measure(tape, s)
    decreases n
  {
    if n != 0 {
      StepDecreases(tape, s);
      StepsAreBounded(tape, Step(tape, s).state, n - 1);
    }
  }

  function Start(seed: bv32): State {
    State(Core(seed, 0), 0, [])
  }

  /** From the constructor's state at most 16^|tape| instructions complete. */
  lemma ExecuteIsBounded(tape: Tape, seed: bv32, n: nat)
    requires After(tape, Start(seed), n).At?
    ensures n < Power16(|tape|)
  {
    StepsAreBounded(tape, Start(seed), n);
    var ip := After(tape, Start(seed), n).state.ip;
    Power16Grows(0, if ip < |tape| then |tape| - ip else 0);
  }

  lemma {:induction false} AfterAdd(tape: Tape, s: State, m: nat, n: nat)
    requires After(tape, s, m).At?
    ensures After(tape, s, m + n) == After(tape, After(tape, s, m).state, n)
    decreases m
  {
    if m != 0 {
      AfterAdd(tape, Step(tape, s).state, m - 1, n);
    }
  }

  /** A run goes on from every state it passes through. */
  lemma {:induction false} RunFrom(tape: Tape, s: State, n: nat)
    requires After(tape, s, n).At?
    ensures Run(tape, s) == Run(tape, After(tape, s, n).state)
    decreases n
  {
    if n != 0 {
      RunFrom(tape, Step(tape, s).state, n - 1);
    }
  }
}
