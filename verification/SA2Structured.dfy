/** Structured SA2 programs, their translation to tapes, and the proof that the
    machine computes what the structure says. */
module SA2Structured {
  import opened Words
  import opened SA2Machine
  import opened SA2Interpreter

  datatype Program =
    | Skip
    | Then(first: Program, second: Program)
    | ShiftL
    | ShiftR
    | AddWord(word: bv32)
    | SubWord(word: bv32)
    | XorWord(word: bv32)
    | End
    | Repeat(times: bv8, body: Program)
    | IfCarry(thn: Program)
    | IfCarryElse(thn: Program, els: Program)

  // ----- meaning -----

  /** A loop tests after its body, so operand zero still runs it once. */
  function Passes(times: bv8): (n: nat)
    ensures n >= 1
  {
    if Nat8(times) == 0 then 1 else Nat8(times)
  }

  function Eval(p: Program, c: Core): Core
    decreases p, 0
  {
    match p
    case Skip => c
    case Then(p1, p2) => Eval(p2, Eval(p1, c))
    case ShiftL => RotateLeftThroughCarry(c)
    case ShiftR => RotateRightThroughCarry(c)
    case AddWord(w) => AddTo(c, w)
    case SubWord(w) => SubtractFrom(c, w)
    case XorWord(w) => XorInto(c, w)
    case End => c
    case Repeat(times, body) => EvalTimes(body, Passes(times), c)
    case IfCarry(thn) => if c.carry == 0 then c else Eval(thn, c)
    case IfCarryElse(thn, els) => if c.carry == 0 then Eval(els, c) else Eval(thn, c)
  }

  function EvalTimes(p: Program, n: nat, c: Core): Core
    decreases p, n
  {
    if n == 0 then c else EvalTimes(p, n - 1, Eval(p, c))
  }

  // ----- translation -----

  function Size(p: Program): nat {
    match p
    case Skip => 0
    case Then(p1, p2) => Size(p1) + Size(p2)
    case ShiftL => 1
    case ShiftR => 1
    case AddWord(_) => 5
    case SubWord(_) => 5
    case XorWord(_) => 5
    case End => 1
    case Repeat(_, body) => Size(body) + 3
    case IfCarry(thn) => Size(thn) + 2
    case IfCarryElse(thn, els) => Size(thn) + Size(els) + 4
  }

  /** Every skip distance fits the one-byte operand of its branch. */
  predicate Encodable(p: Program) {
    match p
    case Then(p1, p2) => Encodable(p1) && Encodable(p2)
    case Repeat(_, body) => Encodable(body)
    case IfCarry(thn) => Encodable(thn) && Size(thn) < 256
    case IfCarryElse(thn, els) => Encodable(thn) && Encodable(els) && Size(thn) + 2 < 256 && Size(els) < 256
    case _ => true
  }

  function Compile(p: Program): (tape: Tape)
    requires Encodable(p)
    ensures |tape| == Size(p)
  {
    match p
    case Skip => []
    case Then(p1, p2) => Compile(p1) + Compile(p2)
    case ShiftL => [0x81]
    case ShiftR => [0x82]
    case AddWord(w) => [0x93] + BytesOf(w)
    case SubWord(w) => [0x84] + BytesOf(w)
    case XorWord(w) => [0x87] + BytesOf(w)
    case End => [0x4C]
    case Repeat(times, body) => [0x68, times] + Compile(body) + [0x49]
    case IfCarry(thn) => [0x4A, Bits8(Size(thn))] + Compile(thn)
    case IfCarryElse(thn, els) =>
      [0x4A, Bits8(Size(thn) + 2)] + Compile(thn) + [0x6B, Bits8(Size(els))] + Compile(els)
  }

  lemma CompileOfRepeat(times: bv8, body: Program)
    requires Encodable(body)
    ensures Compile(Repeat(times, body)) == [0x68, times] + Compile(body) + [0x49] + []
  {
    hide Bits8, BytesOf;
  }

  lemma CompileOfIfCarryElse(thn: Program, els: Program)
    requires Encodable(IfCarryElse(thn, els))
    ensures Compile(IfCarryElse(thn, els))
         == [0x4A, Bits8(Size(thn) + 2)] + Compile(thn) + [0x6B, Bits8(Size(els))] + Compile(els)
  {
    hide Bits8, BytesOf, Size;
  }

  // ----- code inside a tape -----

  /** `code` stands in `tape` from `p` on. */
  predicate Holds(tape: Tape, p: nat, code: Tape) {
    p + |code| <= |tape| && tape[p..p + |code|] == code
  }

  lemma HoldsParts(tape: Tape, p: nat, a: Tape, b: Tape)
    requires Holds(tape, p, a + b)
    ensures Holds(tape, p, a) && Holds(tape, p + |a|, b)
  {
    var whole := tape[p..p + |a + b|];
    assert whole[..|a|] == a && whole[|a|..] == b;
    assert tape[p..p + |a|] == whole[..|a|];
    assert tape[p + |a|..p + |a| + |b|] == whole[|a|..];
  }

  lemma HoldsFourParts(tape: Tape, p: nat, a: Tape, b: Tape, c: Tape, d: Tape)
    requires Holds(tape, p, a + b + c + d)
    ensures Holds(tape, p, a) && Holds(tape, p + |a|, b)
    ensures Holds(tape, p + |a| + |b|, c) && Holds(tape, p + |a| + |b| + |c|, d)
  {
    hide Holds;
    HoldsParts(tape, p, a + b + c, d);
    HoldsParts(tape, p, a + b, c);
    HoldsParts(tape, p, a, b);
  }

  lemma HoldsAt(tape: Tape, p: nat, code: Tape, i: nat)
    requires Holds(tape, p, code) && i < |code|
    ensures p + i < |tape| && tape[p + i] == code[i]
  {
    assert tape[p..p + |code|][i] == code[i];
  }

  lemma OneStep(tape: Tape, s: State)
    requires s.ip < |tape| && Step(tape, s).Next?
    ensures After(tape, s, 1) == At(Step(tape, s).state)
  {
    assert After(tape, s, 1) == After(tape, Step(tape, s).state, 0);
  }

  lemma OneStepThen(tape: Tape, s: State, t: State, n: nat)
    requires s.ip < |tape| && Step(tape, s) == Next(t) && After(tape, t, n).At?
    ensures After(tape, s, n + 1) == After(tape, t, n)
  {
  }

  // ----- the simulation -----

  lemma ArithmeticRuns(tape: Tape, p: nat, op: bv8, w: bv32, s: State)
    requires op in {0x93, 0x84, 0x87} && Holds(tape, p, [op] + BytesOf(w)) && s.ip == p
    ensures s.ip < |tape|
    ensures Step(tape, s) == Next(Advance(s,
      if op == 0x93 then AddTo(s.core, w) else if op == 0x84 then SubtractFrom(s.core, w) else XorInto(s.core, w), 5))
  {
    hide Word, Byte0, Byte1, Byte2, Byte3, AddTo, SubtractFrom, XorInto;
    var code := [op] + BytesOf(w);
    HoldsAt(tape, p, code, 0);
    HoldsAt(tape, p, code, 1);
    HoldsAt(tape, p, code, 2);
    HoldsAt(tape, p, code, 3);
    HoldsAt(tape, p, code, 4);
    BytesRoundTrip(w, BytesOf(w));
    assert WordAt(tape, p) == WordOf(BytesOf(w));
  }

  predicate Atom(p: Program) {
    p.ShiftL? || p.ShiftR? || p.AddWord? || p.SubWord? || p.XorWord? || p.End?
  }

  lemma AtomRuns(p: Program, tape: Tape, s: State)
    requires Atom(p) && Holds(tape, s.ip, Compile(p))
    ensures s.ip < |tape| && Step(tape, s) == Next(Advance(s, Eval(p, s.core), Size(p)))
  {
    var code := Compile(p);
    HoldsAt(tape, s.ip, code, 0);
    match p {
      case AddWord(w) => ArithmeticRuns(tape, s.ip, 0x93, w, s);
      case SubWord(w) => ArithmeticRuns(tape, s.ip, 0x84, w, s);
      case XorWord(w) => ArithmeticRuns(tape, s.ip, 0x87, w, s);
      case _ =>
    }
  }

  /** A branch instruction with a given skip distance. */
  lemma BranchRuns(tape: Tape, op: bv8, distance: nat, s: State)
    requires op in {0x4A, 0x6B} && distance < 256 && Holds(tape, s.ip, [op, Bits8(distance)])
    ensures s.ip < |tape|
    ensures Step(tape, s)
         == Next(s.(ip := s.ip + 2 + if op == 0x6B || s.core.carry == 0 then distance else 0))
  {
    var code := [op, Bits8(distance)];
    HoldsAt(tape, s.ip, code, 0);
    HoldsAt(tape, s.ip, code, 1);
    assert ByteAt(tape, s.ip) == distance;
    assert Step(tape, s) == Branch(tape, s, op == 0x6B || s.core.carry == 0);
  }

  /** Wherever the translation of `p` stands in a tape, and whatever loops are
      already running, the machine runs through it in `n` instructions, arrives
      just behind it with the register and the carry that `Eval` gives, and
      leaves the loop stack as it found it. */
  lemma {:induction false} BlockRuns(p: Program, tape: Tape, at: nat, c: Core, loops: seq<Frame>) returns (n: nat)
    requires Encodable(p) && Holds(tape, at, Compile(p))
    ensures After(tape, State(c, at, loops), n) == At(State(Eval(p, c), at + Size(p), loops))
    decreases p, 0
  {
    hide Step, Holds, EvalTimes, Bits8;
    var s := State(c, at, loops);
    match p {
      case Skip =>
        n := 0;
      case Then(p1, p2) =>
        n := ThenRuns(p1, p2, tape, at, c, loops);
      case Repeat(times, body) =>
        n := RepeatRuns(times, body, tape, at, c, loops);
      case IfCarry(thn) =>
        n := IfCarryRuns(thn, tape, at, c, loops);
      case IfCarryElse(thn, els) =>
        n := IfCarryElseRuns(thn, els, tape, at, c, loops);
      case _ =>
        AtomRuns(p, tape, s);
        OneStep(tape, s);
        n := 1;
    }
  }

  lemma {:induction false} ThenRuns(p1: Program, p2: Program, tape: Tape, at: nat, c: Core, loops: seq<Frame>)
    returns (n: nat)
    requires Encodable(p1) && Encodable(p2) && Holds(tape, at, Compile(p1) + Compile(p2))
    ensures After(tape, State(c, at, loops), n)
         == At(State(Eval(p2, Eval(p1, c)), at + Size(p1) + Size(p2), loops))
    decreases Then(p1, p2), -1
  {
    hide *;
    HoldsParts(tape, at, Compile(p1), Compile(p2));
    var n1 := BlockRuns(p1, tape, at, c, loops);
    var n2 := BlockRuns(p2, tape, at + Size(p1), Eval(p1, c), loops);
    AfterAdd(tape, State(c, at, loops), n1, n2);
    n := n1 + n2;
  }

  lemma LoopEntryRuns(tape: Tape, times: bv8, s: State)
    requires Holds(tape, s.ip, [0x68, times])
    ensures s.ip < |tape|
    ensures Step(tape, s)
         == Next(s.(ip := s.ip + 2, loops := [Frame(s.ip + 2, Nat8(times) - 1)] + s.loops))
  {
    var code := [0x68, times];
    HoldsAt(tape, s.ip, code, 0);
    HoldsAt(tape, s.ip, code, 1);
  }

  lemma LoopEndRuns(tape: Tape, at: nat, again: int, s: State)
    requires s.ip < |tape| && tape[s.ip] == 0x49
    ensures var frames := [Frame(at, again)] + s.loops;
      After(tape, s.(loops := frames), 1)
      == At(if again > 0 then State(s.core, at, [Frame(at, again - 1)] + s.loops) else s.(ip := s.ip + 1))
  {
    var frames := [Frame(at, again)] + s.loops;
    assert frames[1..] == s.loops;
    OneStep(tape, s.(loops := frames));
  }

  lemma {:induction false} RepeatRuns(times: bv8, body: Program, tape: Tape, at: nat, c: Core, loops: seq<Frame>)
    returns (n: nat)
    requires Encodable(body) && Holds(tape, at, Compile(Repeat(times, body)))
    ensures After(tape, State(c, at, loops), n)
         == At(State(EvalTimes(body, Passes(times), c), at + Size(body) + 3, loops))
    decreases body, 300
  {
    hide *;
    RepeatLayout(times, body, tape, at);
    PassesAre(times);
    LoopEntryRuns(tape, times, State(c, at, loops));
    var again := Nat8(times) - 1;
    var m := PassesRun(body, tape, at + 2, again, c, loops);
    OneStepThen(tape, State(c, at, loops), State(c, at + 2, [Frame(at + 2, again)] + loops), m);
    n := m + 1;
  }

  lemma PassesAre(times: bv8)
    ensures Passes(times) == if Nat8(times) - 1 < 0 then 1 else Nat8(times)
  {
  }

  lemma RepeatLayout(times: bv8, body: Program, tape: Tape, at: nat)
    requires Encodable(body) && Holds(tape, at, Compile(Repeat(times, body)))
    ensures Holds(tape, at, [0x68, times]) && Holds(tape, at + 2, Compile(body))
    ensures at + 2 + Size(body) < |tape| && tape[at + 2 + Size(body)] == 0x49
  {
    hide *;
    CompileOfRepeat(times, body);
    HoldsFourParts(tape, at, [0x68, times], Compile(body), [0x49], []);
    HoldsAt(tape, at + 2 + Size(body), [0x49], 0);
  }

  /** Inside a loop: one more pass, and then either back to the start of the
      body or out of the loop. */
  lemma {:induction false} PassesRun(body: Program, tape: Tape, at: nat, again: int, c: Core, loops: seq<Frame>)
    returns (n: nat)
    requires again < 256
    requires Encodable(body) && Holds(tape, at, Compile(body))
    requires at + Size(body) < |tape| && tape[at + Size(body)] == 0x49
    ensures After(tape, State(c, at, [Frame(at, again)] + loops), n)
         == At(State(EvalTimes(body, if again < 0 then 1 else again + 1, c), at + Size(body) + 1, loops))
    decreases body, if again < 0 then 1 else again + 1
  {
    hide *;
    var frames := [Frame(at, again)] + loops;
    var m := BlockRuns(body, tape, at, c, frames);
    var d := Eval(body, c);
    LoopEndRuns(tape, at, again, State(d, at + Size(body), loops));
    AfterAdd(tape, State(c, at, frames), m, 1);
    EvalTimesFirst(body, if again < 0 then 1 else again + 1, c);
    if again > 0 {
      var k := PassesRun(body, tape, at, again - 1, d, loops);
      AfterAdd(tape, State(c, at, frames), m + 1, k);
      n := m + 1 + k;
    } else {
      n := m + 1;
    }
  }

  lemma EvalTimesFirst(p: Program, n: nat, c: Core)
    requires n != 0
    ensures EvalTimes(p, n, c) == EvalTimes(p, n - 1, Eval(p, c))
    ensures EvalTimes(p, 0, Eval(p, c)) == Eval(p, c)
  {
    hide Eval;
  }

  lemma {:induction false} IfCarryRuns(thn: Program, tape: Tape, at: nat, c: Core, loops: seq<Frame>) returns (n: nat)
    requires Encodable(IfCarry(thn)) && Holds(tape, at, Compile(IfCarry(thn)))
    ensures After(tape, State(c, at, loops), n)
         == At(State(Eval(IfCarry(thn), c), at + Size(thn) + 2, loops))
    decreases thn, 300
  {
    hide *;
    IfCarryMeans(thn, c);
    var s := State(c, at, loops);
    HoldsParts(tape, at, [0x4A, Bits8(Size(thn))], Compile(thn));
    BranchRuns(tape, 0x4A, Size(thn), s);
    if c.carry == 0 {
      OneStep(tape, s);
      n := 1;
    } else {
      var m := BlockRuns(thn, tape, at + 2, c, loops);
      OneStepThen(tape, s, State(c, at + 2, loops), m);
      n := m + 1;
    }
  }

  lemma IfCarryMeans(thn: Program, c: Core)
    requires Encodable(IfCarry(thn))
    ensures Eval(IfCarry(thn), c) == if c.carry == 0 then c else Eval(thn, c)
    ensures Encodable(thn) && Size(thn) < 256
    ensures Compile(IfCarry(thn)) == [0x4A, Bits8(Size(thn))] + Compile(thn)
  {
    hide RotateLeftThroughCarry, RotateRightThroughCarry, AddTo, SubtractFrom, XorInto;
    hide EvalTimes, Passes, Bits8, BytesOf;
  }

  lemma {:induction false} IfCarryElseRuns(thn: Program, els: Program, tape: Tape, at: nat, c: Core, loops: seq<Frame>)
    returns (n: nat)
    requires Encodable(IfCarryElse(thn, els)) && Holds(tape, at, Compile(IfCarryElse(thn, els)))
    ensures After(tape, State(c, at, loops), n)
         == At(State(Eval(IfCarryElse(thn, els), c), at + Size(thn) + Size(els) + 4, loops))
    decreases IfCarryElse(thn, els), -1
  {
    hide *;
    IfCarryElseMeans(thn, els, c);
    IfCarryElseLayout(thn, els, tape, at);
    var s := State(c, at, loops);
    BranchRuns(tape, 0x4A, Size(thn) + 2, s);
    if c.carry == 0 {
      var m := BlockRuns(els, tape, at + Size(thn) + 4, c, loops);
      OneStepThen(tape, s, State(c, at + Size(thn) + 4, loops), m);
      n := m + 1;
    } else {
      var m := ThenJumpRuns(thn, Size(els), tape, at + 2, c, loops);
      OneStepThen(tape, s, State(c, at + 2, loops), m);
      n := m + 1;
    }
  }

  lemma IfCarryElseMeans(thn: Program, els: Program, c: Core)
    ensures Eval(IfCarryElse(thn, els), c) == if c.carry == 0 then Eval(els, c) else Eval(thn, c)
    ensures Size(IfCarryElse(thn, els)) == Size(thn) + Size(els) + 4
    ensures Encodable(IfCarryElse(thn, els))
        ==> Encodable(thn) && Encodable(els) && Size(thn) + 2 < 256 && Size(els) < 256
  {
    hide RotateLeftThroughCarry, RotateRightThroughCarry, AddTo, SubtractFrom, XorInto, EvalTimes, Passes;
  }

  lemma IfCarryElseLayout(thn: Program, els: Program, tape: Tape, at: nat)
    requires Encodable(IfCarryElse(thn, els)) && Holds(tape, at, Compile(IfCarryElse(thn, els)))
    ensures Holds(tape, at, [0x4A, Bits8(Size(thn) + 2)])
    ensures Holds(tape, at + 2, Compile(thn))
    ensures Holds(tape, at + Size(thn) + 2, [0x6B, Bits8(Size(els))])
    ensures Holds(tape, at + Size(thn) + 4, Compile(els))
  {
    hide *;
    CompileOfIfCarryElse(thn, els);
    IfCarryElseMeans(thn, els, Core(0, 0));
    HoldsFourParts(tape, at, [0x4A, Bits8(Size(thn) + 2)], Compile(thn), [0x6B, Bits8(Size(els))], Compile(els));
  }

  /** The first arm of a two-armed branch, with the jump over the second. */
  lemma {:induction false} ThenJumpRuns(thn: Program, over: nat, tape: Tape, at: nat, c: Core, loops: seq<Frame>)
    returns (n: nat)
    requires Encodable(thn) && Holds(tape, at, Compile(thn))
    requires over < 256 && Holds(tape, at + Size(thn), [0x6B, Bits8(over)])
    ensures After(tape, State(c, at, loops), n)
         == At(State(Eval(thn, c), at + Size(thn) + 2 + over, loops))
    decreases thn, 300
  {
    hide *;
    var m := BlockRuns(thn, tape, at, c, loops);
    var u := State(Eval(thn, c), at + Size(thn), loops);
    BranchRuns(tape, 0x6B, over, u);
    OneStep(tape, u);
    AfterAdd(tape, State(c, at, loops), m, 1);
    n := m + 1;
  }

  /** Compiler correctness: Execute on a translated program halts with the
      register and carry of the structured evaluation and no loop left open. */
  lemma CompiledProgramComputes(p: Program, seed: bv32)
    requires Encodable(p)
    ensures Run(Compile(p), Start(seed)) == Halted(State(Eval(p, Core(seed, 0)), Size(p), []))
  {
    var tape := Compile(p);
    assert tape[0..0 + |tape|] == tape;
    var n := BlockRuns(p, tape, 0, Core(seed, 0), []);
    RunFrom(tape, Start(seed), n);
  }

  // ----- inversion -----

  /** Programs whose register does not depend on the carry. */
  predicate BranchFree(p: Program) {
    match p
    case Then(p1, p2) => BranchFree(p1) && BranchFree(p2)
    case Repeat(_, body) => BranchFree(body)
    case IfCarry(_) => false
    case IfCarryElse(_, _) => false
    case _ => true
  }

  /** Reverse order; left for right, add for subtract, and loops in place. */
  function Inverse(p: Program): Program {
    match p
    case Then(p1, p2) => Then(Inverse(p2), Inverse(p1))
    case ShiftL => ShiftR
    case ShiftR => ShiftL
    case AddWord(w) => SubWord(w)
    case SubWord(w) => AddWord(w)
    case Repeat(times, body) => Repeat(times, Inverse(body))
    case _ => p
  }

  lemma {:induction false} InverseShape(p: Program)
    requires BranchFree(p)
    ensures BranchFree(Inverse(p)) && Encodable(p) && Encodable(Inverse(p))
    ensures Size(Inverse(p)) == Size(p) && Inverse(Inverse(p)) == p
  {
    match p {
      case Then(p1, p2) =>
        InverseShape(p1);
        InverseShape(p2);
      case Repeat(_, body) =>
        InverseShape(body);
      case _ =>
    }
  }

  /** The register after a branch-free program. */
  function Value32(p: Program, r: bv32): bv32 {
    Eval(p, Core(r, 0)).register
  }

  lemma {:induction false} CarryIsIrrelevant(p: Program, c: Core, d: Core)
    requires BranchFree(p) && c.register == d.register
    ensures Eval(p, c).register == Eval(p, d).register
    decreases p, 0
  {
    match p {
      case Then(p1, p2) =>
        CarryIsIrrelevant(p1, c, d);
        CarryIsIrrelevant(p2, Eval(p1, c), Eval(p1, d));
      case Repeat(times, body) =>
        CarryIsIrrelevantTimes(body, Passes(times), c, d);
      case _ =>
    }
  }

  lemma {:induction false} CarryIsIrrelevantTimes(p: Program, n: nat, c: Core, d: Core)
    requires BranchFree(p) && c.register == d.register
    ensures EvalTimes(p, n, c).register == EvalTimes(p, n, d).register
    decreases p, n + 1
  {
    if n != 0 {
      CarryIsIrrelevant(p, c, d);
      CarryIsIrrelevantTimes(p, n - 1, Eval(p, c), Eval(p, d));
    }
  }

  /** Running a branch-free program and then its inverse restores the register,
      whatever the carry holds at either start. */
  lemma {:induction false} InverseUndoes(p: Program, c: Core, carry: bv32)
    requires BranchFree(p)
    ensures Eval(Inverse(p), Core(Eval(p, c).register, carry)).register == c.register
    decreases p, 0
  {
    match p {
      case Skip =>
      case End =>
      case Then(p1, p2) =>
        var mid := Eval(p1, c);
        var back := Eval(Inverse(p2), Core(Eval(p2, mid).register, carry));
        InverseUndoes(p2, mid, carry);
        InverseUndoes(p1, c, back.carry);
        assert back == Core(mid.register, back.carry);
      case ShiftL => RotOneInverse(c.register);
      case ShiftR => RotOneInverse(c.register);
      case AddWord(w) => AddInverts(c.register, w);
      case SubWord(w) => SubInverts(c.register, w);
      case XorWord(w) => XorInverts(c.register, w);
      case Repeat(times, body) =>
        InverseUndoesTimes(body, Passes(times), c, carry);
    }
  }

  lemma {:induction false} InverseUndoesTimes(p: Program, n: nat, c: Core, carry: bv32)
    requires BranchFree(p)
    ensures EvalTimes(Inverse(p), n, Core(EvalTimes(p, n, c).register, carry)).register == c.register
    decreases p, n + 1
  {
    if n != 0 {
      var d := EvalTimes(p, n - 1, c);
      EvalTimesLast(p, n, c);
      var last := Core(Eval(p, d).register, carry);
      InverseUndoes(p, d, carry);
      var back := Eval(Inverse(p), last);
      assert back == Core(d.register, back.carry);
      InverseUndoesTimes(p, n - 1, c, back.carry);
    }
  }

  lemma {:induction false} EvalTimesLast(p: Program, n: nat, c: Core)
    requires n != 0
    ensures EvalTimes(p, n, c) == Eval(p, EvalTimes(p, n - 1, c))
    decreases n
  {
    if n != 1 {
      EvalTimesLast(p, n - 1, Eval(p, c));
    } else {
      assert EvalTimes(p, 0, Eval(p, c)) == Eval(p, c) && EvalTimes(p, 0, c) == c;
    }
  }

  /** The key of a run: the register at the end of the tape. */
  function MachineKey(tape: Tape, seed: bv32): bv32 {
    match Run(tape, Start(seed))
    case Halted(s) => s.core.register
    case Faulted(_, at) => at.core.register
  }

  /** On the machine: the tape of the inverse undoes the tape of the program in
      both orders, so seed to key is a bijection on 32-bit words. */
  lemma TapeInverts(p: Program, seed: bv32)
    requires BranchFree(p)
    ensures Encodable(p) && Encodable(Inverse(p))
    ensures MachineKey(Compile(Inverse(p)), MachineKey(Compile(p), seed)) == seed
    ensures MachineKey(Compile(p), MachineKey(Compile(Inverse(p)), seed)) == seed
  {
    InverseShape(p);
    CompiledProgramComputes(p, seed);
    CompiledProgramComputes(Inverse(p), seed);
    var key, pre := Value32(p, seed), Value32(Inverse(p), seed);
    CompiledProgramComputes(Inverse(p), key);
    CompiledProgramComputes(p, pre);
    InverseUndoes(p, Core(seed, 0), 0);
    InverseUndoes(Inverse(p), Core(seed, 0), 0);
  }

  lemma SeedToKeyIsABijection(p: Program)
    requires BranchFree(p)
    ensures Encodable(p) && Encodable(Inverse(p))
    ensures forall s, t :: MachineKey(Compile(p), s) == MachineKey(Compile(p), t) ==> s == t
    ensures forall k :: MachineKey(Compile(p), MachineKey(Compile(Inverse(p)), k)) == k
  {
    InverseShape(p);
    forall s, t | MachineKey(Compile(p), s) == MachineKey(Compile(p), t)
      ensures s == t
    {
      TapeInverts(p, s);
      TapeInverts(p, t);
    }
    forall k
      ensures MachineKey(Compile(p), MachineKey(Compile(Inverse(p)), k)) == k
    {
      TapeInverts(p, k);
    }
  }

  /** A branch can lose the seed: shift left, then flip the low bit if it was
      carried in.  Seeds 0 and 0x80000000 end in the same key. */
  lemma BranchesCanCollide()
    ensures var p := Then(ShiftL, IfCarry(XorWord(1)));
      && Encodable(p)
      && MachineKey(Compile(p), 0) == MachineKey(Compile(p), 0x8000_0000)
  {
    var p := Then(ShiftL, IfCarry(XorWord(1)));
    assert Size(XorWord(1)) == 5;
    CompiledProgramComputes(p, 0);
    CompiledProgramComputes(p, 0x8000_0000);
    ShiftAndFlip(Core(0, 0));
    ShiftAndFlip(Core(0x8000_0000, 0));
    CollidingSteps();
  }

  lemma ShiftAndFlip(c: Core)
    ensures var d := RotateLeftThroughCarry(c);
      Eval(Then(ShiftL, IfCarry(XorWord(1))), c) == if d.carry == 0 then d else XorInto(d, 1)
  {
    assert Eval(ShiftL, c) == RotateLeftThroughCarry(c);
  }

  lemma CollidingSteps()
    ensures var a, b := RotateLeftThroughCarry(Core(0, 0)), RotateLeftThroughCarry(Core(0x8000_0000, 0));
      a == Core(0, 0) && b.carry != 0 && XorInto(b, 1).register == 0
  {
  }

  // ----- the provider's bytes -----

  lemma BytesAreTheSeed(seed: seq<bv8>, back: seq<bv8>)
    requires |seed| == |back| == 4 && WordOf(back) == WordOf(seed)
    ensures back == seed
  {
    hide WordOf, BytesOf;
    BytesRoundTrip(0, seed);
    BytesRoundTrip(0, back);
  }

  /** The provider, run on the tape of a structured program, hands out the bytes of
      the structured evaluation, most significant first. */
  method ProviderComputes(p: Program, seed: seq<bv8>) returns (key: seq<bv8>)
    requires Encodable(p) && |seed| == 4
    ensures |key| == 4 && WordOf(key) == Eval(p, Core(WordOf(seed), 0)).register
  {
    hide WordOf, BytesOf, Run, Eval, Compile;
    CompiledProgramComputes(p, WordOf(seed));
    var result := GenerateKey(Compile(p), seed, 4);
    key := result.bytes;
  }

  /** The provider on the inverse tape turns the key bytes back into the seed
      bytes. */
  method ProviderInverts(p: Program, seed: seq<bv8>) returns (key: Key, back: Key)
    requires BranchFree(p) && |seed| == 4
    ensures key.KeyBytes? && |key.bytes| == 4 && back == KeyBytes(seed)
  {
    hide WordOf, BytesOf, Eval, Run, Compile, Inverse;
    InverseShape(p);
    CompiledProgramComputes(p, WordOf(seed));
    key := GenerateKey(Compile(p), seed, 4);
    CompiledProgramComputes(Inverse(p), WordOf(key.bytes));
    InverseUndoes(p, Core(WordOf(seed), 0), 0);
    back := GenerateKey(Compile(Inverse(p)), key.bytes, 4);
    BytesAreTheSeed(seed, back.bytes);
  }
}
