/** Branches that do not cost a program its inverse.

    `Straighten` follows what is known about the carry.  It drops branches that
    cannot be taken, branches whose arm leaves the register alone, and branches
    whose two arms do the same.  Where nothing else is left, the program maps
    seeds to keys one-to-one. */
module SA2Straighten {
  import opened Words
  import opened SA2Machine
  import opened SA2Structured

  /** A branch-free program for the same register, and whether the carry is
      clear for certain behind it. */
  datatype Straight = Straight(program: Program, clear: bool) | Crooked

  /** The program does nothing at all. */
  predicate Still(p: Program) {
    match p
    case Skip => true
    case End => true
    case Then(p1, p2) => Still(p1) && Still(p2)
    case Repeat(_, body) => Still(body)
    case _ => false
  }

  function Trim(p: Program): Program {
    if Still(p) then Skip else p
  }

  function Straighten(p: Program, clear: bool): Straight {
    match p
    case Skip => Straight(p, clear)
    case End => Straight(p, clear)
    case ShiftL => Straight(p, false)
    case ShiftR => Straight(p, false)
    case AddWord(_) => Straight(p, false)
    case SubWord(_) => Straight(p, true)
    case XorWord(_) => Straight(p, clear)
    case Then(p1, p2) =>
      (match Straighten(p1, clear)
       case Crooked => Crooked
       case Straight(q1, c1) =>
         match Straighten(p2, c1)
         case Crooked => Crooked
         case Straight(q2, c2) => Straight(Then(q1, q2), c2))
    case Repeat(times, body) =>
      var first := Straighten(body, clear);
      var body' := if first.Straight? && (clear ==> first.clear) then first else Straighten(body, false);
      (match body'
       case Crooked => Crooked
       case Straight(q, c) => Straight(Repeat(times, q), c))
    case IfCarry(thn) =>
      if clear then Straight(Skip, true)
      else
        (match Straighten(thn, false)
         case Crooked => Crooked
         case Straight(q, c) => if Still(q) then Straight(Skip, c) else Crooked)
    case IfCarryElse(thn, els) =>
      if clear then Straighten(els, true)
      else
        match (Straighten(thn, false), Straighten(els, true))
        case (Straight(q1, c1), Straight(q2, c2)) =>
          if Trim(q1) == Trim(q2) then Straight(Trim(q1), c1 && c2) else Crooked
        case _ => Crooked
  }

  lemma {:induction false} StillDoesNothing(p: Program, c: Core)
    requires Still(p)
    ensures BranchFree(p) && Eval(p, c) == c
    decreases p, 0
  {
    match p {
      case Then(p1, p2) =>
        StillDoesNothing(p1, c);
        StillDoesNothing(p2, c);
      case Repeat(times, body) =>
        StillTimes(body, Passes(times), c);
      case _ =>
    }
  }

  lemma {:induction false} StillTimes(p: Program, n: nat, c: Core)
    requires Still(p)
    ensures BranchFree(p) && EvalTimes(p, n, c) == c
    decreases p, n + 1
  {
    StillDoesNothing(p, c);
    if n != 0 {
      StillTimes(p, n - 1, c);
    }
  }

  lemma TrimKeeps(p: Program, c: Core)
    requires BranchFree(p)
    ensures BranchFree(Trim(p)) && Eval(Trim(p), c).register == Eval(p, c).register
  {
    if Still(p) {
      StillDoesNothing(p, c);
    }
  }

  /** What is claimed of a straightened program for one start. */
  ghost predicate Keeps(p: Program, clear: bool, s: Straight, c: Core) {
    s.Straight? && (clear ==> c.carry == 0) ==>
      && BranchFree(s.program)
      && Eval(p, c).register == Eval(s.program, c).register
      && (s.clear ==> Eval(p, c).carry == 0)
  }

  /** Straightening keeps the register, and what it says of the carry holds. */
  lemma {:induction false} StraightenKeeps(p: Program, clear: bool, c: Core)
    ensures Keeps(p, clear, Straighten(p, clear), c)
    decreases p, 0
  {
    hide RotateLeftThroughCarry, RotateRightThroughCarry, AddTo, Passes;
    match p {
      case Then(p1, p2) =>
        ThenKeeps(p1, p2, clear, c);
      case Repeat(times, body) =>
        RepeatKeeps(times, body, clear, c);
      case IfCarry(thn) =>
        StraightenKeeps(thn, false, c);
        var s := Straighten(thn, false);
        if s.Straight? && Still(s.program) {
          StillDoesNothing(s.program, c);
        }
      case IfCarryElse(thn, els) =>
        StraightenKeeps(thn, false, c);
        StraightenKeeps(els, true, c);
        ArmsKeep(thn, els, clear, c);
      case _ =>
    }
  }

  lemma {:induction false} ThenKeeps(p1: Program, p2: Program, clear: bool, c: Core)
    ensures Keeps(Then(p1, p2), clear, Straighten(Then(p1, p2), clear), c)
    decreases Then(p1, p2), -1
  {
    hide Straighten, Eval, BranchFree;
    StraightThen(p1, p2, clear, c);
    StraightenKeeps(p1, clear, c);
    var s1 := Straighten(p1, clear);
    if s1.Straight? && (clear ==> c.carry == 0) {
      var mid := Eval(p1, c);
      StraightenKeeps(p2, s1.clear, mid);
      var s2 := Straighten(p2, s1.clear);
      if s2.Straight? {
        CarryIsIrrelevant(s2.program, mid, Eval(s1.program, c));
        ThenMeans(s1.program, s2.program, c);
      }
    }
  }

  lemma ThenMeans(p1: Program, p2: Program, c: Core)
    ensures Eval(Then(p1, p2), c) == Eval(p2, Eval(p1, c))
    ensures BranchFree(Then(p1, p2)) <==> BranchFree(p1) && BranchFree(p2)
  {
    hide RotateLeftThroughCarry, RotateRightThroughCarry, AddTo, SubtractFrom, XorInto, EvalTimes, Passes;
  }

  lemma StraightThen(p1: Program, p2: Program, clear: bool, c: Core)
    ensures Eval(Then(p1, p2), c) == Eval(p2, Eval(p1, c))
    ensures Straighten(Then(p1, p2), clear).Straight? ==>
      && Straighten(p1, clear).Straight? && Straighten(p2, Straighten(p1, clear).clear).Straight?
    ensures var s1 := Straighten(p1, clear);
      s1.Straight? && Straighten(p2, s1.clear).Straight? ==>
        Straighten(Then(p1, p2), clear)
        == Straight(Then(s1.program, Straighten(p2, s1.clear).program), Straighten(p2, s1.clear).clear)
  {
    ThenMeans(p1, p2, c);
    hide Eval;
  }

  lemma ArmsKeep(thn: Program, els: Program, clear: bool, c: Core)
    requires Keeps(thn, false, Straighten(thn, false), c) && Keeps(els, true, Straighten(els, true), c)
    ensures Keeps(IfCarryElse(thn, els), clear, Straighten(IfCarryElse(thn, els), clear), c)
  {
    hide Trim, Still, Straighten, Eval, BranchFree;
    IfCarryElseMeans(thn, els, c);
    StraightArms(thn, els, clear);
    var s1, s2 := Straighten(thn, false), Straighten(els, true);
    if s1.Straight? && s2.Straight? {
      if c.carry == 0 {
        TrimKeeps(s2.program, c);
      } else {
        TrimKeeps(s1.program, c);
      }
    }
  }

  lemma StraightArms(thn: Program, els: Program, clear: bool)
    ensures var s1, s2 := Straighten(thn, false), Straighten(els, true);
      Straighten(IfCarryElse(thn, els), clear)
      == if clear then s2
         else if s1.Straight? && s2.Straight? && Trim(s1.program) == Trim(s2.program)
           then Straight(Trim(s1.program), s1.clear && s2.clear)
         else Crooked
  {
    hide Trim;
  }

  lemma {:induction false} RepeatKeeps(times: bv8, body: Program, clear: bool, c: Core)
    ensures Keeps(Repeat(times, body), clear, Straighten(Repeat(times, body), clear), c)
    decreases body, 300
  {
    hide Passes;
    PassesFitAByte(times);
    var first := Straighten(body, clear);
    var known := first.Straight? && (clear ==> first.clear);
    var s := if known then first else Straighten(body, false);
    if s.Straight? && (clear ==> c.carry == 0) {
      TimesKeep(body, if known then clear else false, s, Passes(times), c, c);
    }
  }

  lemma PassesFitAByte(times: bv8)
    ensures 1 <= Passes(times) <= 255
  {
  }

  /** One pass after the other, on registers that agree. */
  lemma {:induction false} TimesKeep(body: Program, clear: bool, s: Straight, n: nat, c: Core, e: Core)
    requires s == Straighten(body, clear) && s.Straight? && (clear ==> s.clear && c.carry == 0)
    requires c.register == e.register
    ensures BranchFree(s.program)
    ensures EvalTimes(body, n, c).register == EvalTimes(s.program, n, e).register
    ensures n > 0 && s.clear ==> EvalTimes(body, n, c).carry == 0
    decreases body, n + 1
  {
    hide Straighten, Eval, BranchFree;
    StraightenKeeps(body, clear, c);
    if n != 0 {
      CarryIsIrrelevant(s.program, c, e);
      TimesKeep(body, clear, s, n - 1, Eval(body, c), Eval(s.program, e));
    }
  }

  /** Programs without branches are straight already. */
  lemma {:induction false} BranchFreeIsStraight(p: Program, clear: bool)
    requires BranchFree(p)
    ensures Straighten(p, clear).Straight?
  {
    match p {
      case Then(p1, p2) =>
        BranchFreeIsStraight(p1, clear);
        BranchFreeIsStraight(p2, Straighten(p1, clear).clear);
      case Repeat(_, body) =>
        BranchFreeIsStraight(body, clear);
        BranchFreeIsStraight(body, false);
      case _ =>
    }
  }

  /** On the machine: the tape of a program that straightens gives the keys of
      its straight form, so seed to key is a bijection, undone by the tape of
      the straight form's inverse. */
  lemma StraightTapeInverts(p: Program, seed: bv32)
    requires Encodable(p) && Straighten(p, true).Straight?
    ensures var q := Straighten(p, true).program;
      && BranchFree(q) && Encodable(q) && Encodable(Inverse(q))
      && MachineKey(Compile(p), seed) == MachineKey(Compile(q), seed)
      && MachineKey(Compile(Inverse(q)), MachineKey(Compile(p), seed)) == seed
      && MachineKey(Compile(p), MachineKey(Compile(Inverse(q)), seed)) == seed
  {
    hide Straighten, Compile, Run, Eval, Inverse, Encodable, BranchFree;
    var q := Straighten(p, true).program;
    StraightenKeeps(p, true, Core(seed, 0));
    InverseShape(q);
    TapeInverts(q, seed);
    SameKeyAsStraight(p, seed);
    SameKeyAsStraight(p, MachineKey(Compile(Inverse(q)), seed));
  }

  lemma SameKeyAsStraight(p: Program, seed: bv32)
    requires Encodable(p) && Straighten(p, true).Straight?
    ensures var q := Straighten(p, true).program;
      BranchFree(q) && Encodable(q) && MachineKey(Compile(p), seed) == MachineKey(Compile(q), seed)
  {
    hide Straighten, Compile, Run, Eval, Inverse, Encodable, BranchFree;
    var q := Straighten(p, true).program;
    StraightenKeeps(p, true, Core(seed, 0));
    InverseShape(q);
    CompiledProgramComputes(p, seed);
    CompiledProgramComputes(q, seed);
  }

  lemma StraightSeedToKeyIsABijection(p: Program)
    requires Encodable(p) && Straighten(p, true).Straight?
    ensures var q := Straighten(p, true).program;
      && Encodable(Inverse(q))
      && (forall s, t :: MachineKey(Compile(p), s) == MachineKey(Compile(p), t) ==> s == t)
      && (forall k :: MachineKey(Compile(p), MachineKey(Compile(Inverse(q)), k)) == k)
  {
    hide Straighten, Compile, MachineKey, Inverse, Encodable, BranchFree;
    StraightTapeInverts(p, 0);
    var q := Straighten(p, true).program;
    forall s, t | MachineKey(Compile(p), s) == MachineKey(Compile(p), t)
      ensures s == t
    {
      StraightTapeInverts(p, s);
      StraightTapeInverts(p, t);
    }
    forall k
      ensures MachineKey(Compile(p), MachineKey(Compile(Inverse(q)), k)) == k
    {
      StraightTapeInverts(p, k);
    }
  }

  /** Branches that straighten: one that only the carry of a subtraction could
      take, and one whose arm is empty. */
  lemma SomeBranchesAreStraight(w: bv32, thn: Program)
    ensures Straighten(Then(SubWord(w), IfCarry(thn)), true).Straight?
    ensures Straighten(Then(ShiftL, IfCarry(Skip)), true).Straight?
    ensures Straighten(Then(ShiftL, IfCarryElse(XorWord(w), XorWord(w))), true).Straight?
  {
    assert Straighten(SubWord(w), true) == Straight(SubWord(w), true);
    assert Straighten(ShiftL, true) == Straight(ShiftL, false);
    assert Straighten(Skip, false) == Straight(Skip, false);
    assert Straighten(XorWord(w), false).program == Straighten(XorWord(w), true).program == XorWord(w);
  }
}
