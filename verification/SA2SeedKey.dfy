/** The SA2 interpreter object.  Each opcode method updates the fields step by
    step; its contract says which abstract state it leaves behind, and in which
    state an exception finds the object. */
module SA2Interpreter {
  import opened Words
  import opened SA2Machine
  import opened Text

  class SA2SeedKey {
    var register: bv32
    var carryFlag: bv32
    const tape: Tape
    var instructionPointer: nat
    var forPointers: seq<nat>
    var forIterations: seq<int>

    /** The two loop lists grow and shrink together. */
    predicate Valid()
      reads this
    {
      |forPointers| == |forIterations|
    }

    function View(): State
      reads this
      requires Valid()
    {
      State(Core(register, carryFlag), instructionPointer,
            seq(|forPointers|, i requires 0 <= i < |forPointers| && Valid() reads this =>
              Frame(forPointers[i], forIterations[i])))
    }

    constructor (tape: Tape, seed: bv32)
      ensures Valid() && this.tape == tape && View() == Start(seed)
    {
      this.tape := tape;
      register, carryFlag := seed, 0;
      instructionPointer, forPointers, forIterations := 0, [], [];
    }

    method RegisterShiftLeft()
      requires Valid()
      modifies this
      ensures Valid()
      ensures View() == Advance(old(View()), RotateLeftThroughCarry(old(View()).core), 1)
    {
      carryFlag := register & 0x8000_0000;
      CarryLeft(register);
      register := Double(register);
      if carryFlag > 0 {
        register := Or(register, 1);
      }
      instructionPointer := instructionPointer + 1;
    }

    method RegisterShiftRight()
      requires Valid()
      modifies this
      ensures Valid()
      ensures View() == Advance(old(View()), RotateRightThroughCarry(old(View()).core), 1)
    {
      carryFlag := register & 1;
      CarryRight(register);
      register := Half(register);
      if carryFlag > 0 {
        register := Or(register, 0x8000_0000);
      }
      instructionPointer := instructionPointer + 1;
    }

    method FetchOperand() returns (operand: Option<bv32>)
      requires Valid()
      ensures operand == if HasWord(tape, instructionPointer) then Some(WordAt(tape, instructionPointer)) else None
    {
      var from := instructionPointer + 1;
      if from + 4 > |tape| {
        return None;
      }
      var operands := tape[from..from + 4];
      operand := Some(Word(operands[0], operands[1], operands[2], operands[3]));
    }

    method FetchOperandByte() returns (operand: Option<nat>)
      requires Valid()
      ensures operand == if HasByte(tape, instructionPointer) then Some(ByteAt(tape, instructionPointer)) else None
    {
      if instructionPointer + 1 >= |tape| {
        return None;
      }
      operand := Some(Nat8(tape[instructionPointer + 1]));
    }

    /** What the three arithmetic methods promise about their outcome. */
    ghost predicate Did(r: StepResult, fault: Option<Fault>)
      reads this
      requires Valid()
    {
      match r
      case Next(s) => fault == None && View() == s
      case Raised(f, s) => fault == Some(f) && View() == s
    }

    method Add() returns (fault: Option<Fault>)
      requires Valid() && instructionPointer < |tape| && tape[instructionPointer] == 0x93
      modifies this
      ensures Valid() && Did(Arithmetic(tape, old(View())), fault)
    {
      hide AddTo, SubtractFrom, XorInto, Value, Truncate, WordAt;
      carryFlag := 0;
      var operand := FetchOperand();
      if operand == None {
        return Some(MissingOperand);
      }
      AddToUnfolds(old(View().core), operand.value);
      var outputRegister := Value(register) + Value(operand.value);
      if outputRegister > 0xFFFF_FFFF {
        carryFlag := 1;
      }
      register := Truncate(outputRegister);
      instructionPointer := instructionPointer + 5;
      return None;
    }

    method Subtract() returns (fault: Option<Fault>)
      requires Valid() && instructionPointer < |tape| && tape[instructionPointer] == 0x84
      modifies this
      ensures Valid() && Did(Arithmetic(tape, old(View())), fault)
    {
      hide AddTo, SubtractFrom, XorInto, Value, Truncate, WordAt;
      carryFlag := 0;
      var operand := FetchOperand();
      if operand == None {
        return Some(MissingOperand);
      }
      SubtractFromUnfolds(old(View().core), operand.value);
      var outputRegister := Value(register) - Value(operand.value);
      // never above the register's range, so the carry stays clear
      assert outputRegister <= 0xFFFF_FFFF;
      register := Truncate(outputRegister);
      instructionPointer := instructionPointer + 5;
      return None;
    }

    method ExclusiveOr() returns (fault: Option<Fault>)
      requires Valid() && instructionPointer < |tape| && tape[instructionPointer] == 0x87
      modifies this
      ensures Valid() && Did(Arithmetic(tape, old(View())), fault)
    {
      var operand := FetchOperand();
      if operand == None {
        return Some(MissingOperand);
      }
      register := Xor(register, operand.value);
      instructionPointer := instructionPointer + 5;
      return None;
    }

    method LoopInit() returns (fault: Option<Fault>)
      requires Valid()
      modifies this
      ensures Valid() && Did(LoopEntry(tape, old(View())), fault)
    {
      var operand := FetchOperandByte();
      if operand == None {
        return Some(MissingOperand);
      }
      forIterations := [operand.value - 1] + forIterations;
      instructionPointer := instructionPointer + 2;
      forPointers := [instructionPointer] + forPointers;
      return None;
    }

    method LoopNext() returns (fault: Option<Fault>)
      requires Valid()
      modifies this
      ensures Valid() && Did(LoopEnd(old(View())), fault)
    {
      if |forIterations| == 0 {
        return Some(EmptyLoopStack);
      }
      ghost var loops := View().loops;
      assert loops[0] == Frame(forPointers[0], forIterations[0]);
      if forIterations[0] > 0 {
        forIterations := forIterations[0 := forIterations[0] - 1];
        instructionPointer := forPointers[0];
        assert View().loops == [Frame(forPointers[0], forIterations[0])] + loops[1..];
      } else {
        forIterations := forIterations[1..];
        forPointers := forPointers[1..];
        instructionPointer := instructionPointer + 1;
        assert View().loops == loops[1..];
      }
      return None;
    }

    method BranchConditional() returns (fault: Option<Fault>)
      requires Valid()
      modifies this
      ensures Valid() && Did(Branch(tape, old(View()), old(carryFlag) == 0), fault)
    {
      var operand := FetchOperandByte();
      if operand == None {
        return Some(MissingOperand);
      }
      var skipCount := operand.value + 2;
      if carryFlag == 0 {
        instructionPointer := instructionPointer + skipCount;
      } else {
        instructionPointer := instructionPointer + 2;
      }
      return None;
    }

    method BranchUnconditional() returns (fault: Option<Fault>)
      requires Valid()
      modifies this
      ensures Valid() && Did(Branch(tape, old(View()), true), fault)
    {
      var operand := FetchOperandByte();
      if operand == None {
        return Some(MissingOperand);
      }
      instructionPointer := instructionPointer + operand.value + 2;
      return None;
    }

    /** Despite its name it only steps over itself. */
    method EndExecution()
      requires Valid()
      modifies this
      ensures Valid() && View() == Advance(old(View()), old(View()).core, 1)
    {
      instructionPointer := instructionPointer + 1;
    }

    /** One turn of the interpreter loop: look the opcode up and run it. */
    method Dispatch() returns (fault: Option<Fault>)
      requires Valid() && instructionPointer < |tape|
      modifies this
      ensures Valid() && Did(Step(tape, old(View())), fault)
    {
      fault := None;
      match tape[instructionPointer] {
        case 0x81 => RegisterShiftLeft();
        case 0x82 => RegisterShiftRight();
        case 0x93 => fault := Add();
        case 0x84 => fault := Subtract();
        case 0x87 => fault := ExclusiveOr();
        case 0x68 => fault := LoopInit();
        case 0x49 => fault := LoopNext();
        case 0x4A => fault := BranchConditional();
        case 0x6B => fault := BranchUnconditional();
        case 0x4C => EndExecution();
        case _ => fault := Some(UnknownOpcode);
      }
    }

    /** The run of the tape, which always ends; `steps` counts the completed
        instructions. */
    method Execute() returns (outcome: Outcome, ghost steps: nat)
      requires Valid()
      modifies this
      ensures Valid() && outcome == Run(tape, old(View()))
      ensures outcome.Halted? ==> View() == outcome.state && View().ip >= |tape|
      ensures outcome.Faulted? ==> View() == outcome.at
      ensures steps <= Measure(tape, old(View()))
      ensures After(tape, old(View()), steps).At?
    {
      ghost var first := View();
      steps := 0;
      assert After(tape, first, 0) == At(first);
      while instructionPointer < |tape|
        invariant Valid()
        invariant After(tape, first, steps) == At(View())
        decreases Measure(tape, View())
      {
        ghost var s := View();
        RunFrom(tape, first, steps);
        StepsAreBounded(tape, first, steps);
        var fault := Dispatch();
        if fault != None {
          return Faulted(fault.value, View()), steps;
        }
        StepDecreases(tape, s);
        OneMore(tape, first, steps);
        steps := steps + 1;
      }
      RunFrom(tape, first, steps);
      StepsAreBounded(tape, first, steps);
      outcome := Halted(View());
    }
  }

  lemma AddToUnfolds(c: Core, w: bv32)
    ensures var sum := Value(c.register) + Value(w);
      AddTo(c, w) == Core(Truncate(sum), if sum > 0xFFFF_FFFF then 1 else 0)
  {
    hide Value, Truncate;
  }

  lemma SubtractFromUnfolds(c: Core, w: bv32)
    ensures SubtractFrom(c, w) == Core(Truncate(Value(c.register) - Value(w)), 0)
  {
    hide Value, Truncate;
  }

  lemma OneMore(tape: Tape, s: State, n: nat)
    requires After(tape, s, n).At?
    requires After(tape, s, n).state.ip < |tape| && Step(tape, After(tape, s, n).state).Next?
    ensures After(tape, s, n + 1) == At(Step(tape, After(tape, s, n).state).state)
  {
    var t := After(tape, s, n).state;
    AfterAdd(tape, s, n, 1);
    assert After(tape, t, 1) == After(tape, Step(tape, t).state, 0);
  }

  // ----- the provider -----

  /** What the provider hands back: no key for a wrong length, a key (big-endian,
      as the seed was loaded), or the exception of the run. */
  datatype Key = NoKey | KeyBytes(bytes: seq<bv8>) | Failed(fault: Fault)

  function KeyOf(outcome: Outcome): Key {
    match outcome
    case Halted(s) => KeyBytes(BytesOf(s.core.register))
    case Faulted(f, _) => Failed(f)
  }

  /** The key is the register at the end of the run, most significant byte first. */
  method GenerateKey(tape: Tape, seed: seq<bv8>, keyLength: int) returns (key: Key)
    ensures |seed| != 4 || keyLength != 4 ==> key == NoKey
    ensures |seed| == 4 && keyLength == 4 ==>
      match Run(tape, Start(WordOf(seed)))
      case Halted(s) => key.KeyBytes? && |key.bytes| == 4 && WordOf(key.bytes) == s.core.register
      case Faulted(f, _) => key == Failed(f)
  {
    if |seed| != 4 || keyLength != 4 {
      return NoKey;
    }
    var sk := new SA2SeedKey(tape, WordOf(seed));
    var outcome, _ := sk.Execute();
    key := KeyOf(outcome);
    if outcome.Halted? {
      BytesRoundTrip(outcome.state.core.register, seed);
    }
  }
}
