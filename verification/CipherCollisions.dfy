/** Seeds that share a key.

    At levels 4 to 7 the byte that chooses the rotation does not survive a
    half-round, and two seeds collide under the all-zero salt although the shift
    register steps equally often.  At the levels up to 3 two seeds collide only
    when it steps differently often, and they do, under salts with a single bit. */
module CipherCollisions {
  import opened Words
  import opened Cipher
  import opened CipherInjectivity

  // ----- round keys of simple salts -----

  /** Eight bytes of which the last four are zero. */
  function Quiet(a: bv8, b: bv8, c: bv8, d: bv8): (s: seq<bv8>)
    ensures |s| == 8
  {
    [a, b, c, d, 0, 0, 0, 0]
  }

  const ZEROS: seq<bv8> := Quiet(0, 0, 0, 0)

  const FIRST_BIT: seq<bv8> := Quiet(0x80, 0, 0, 0)

  const LATE_BIT: seq<bv8> := Quiet(0, 0, 0, 0x80)

  lemma ShiftInZero(b: bv8, neighbour: bv8)
    requires LowBit(neighbour) == 0
    ensures ShiftIn(b, neighbour) == Halved(b)
  {
  }

  lemma ZeroByteStays()
    ensures Halved(0) == 0 && LowBit(0) == 0 && WithFeedback(0, 0) == 0
  {
  }

  /** As long as no byte is odd and no tap is set, a step halves every byte. */
  lemma QuietStep(a: bv8, b: bv8, c: bv8, d: bv8)
    requires LowBit(a) == 0 && LowBit(b) == 0 && LowBit(c) == 0 && LowBit(d) == 0
    requires Feedback(Quiet(a, b, c, d)) == 0
    ensures LfsrStep(Quiet(a, b, c, d)) == Quiet(Halved(a), Halved(b), Halved(c), Halved(d))
  {
    hide ShiftIn, LowBit, Halved, WithFeedback, Feedback, RotBytes;
    var s := Quiet(a, b, c, d);
    ZeroByteStays();
    assert s[7 := 0] == s;
    forall i | 0 <= i < 8
      ensures RotBytes(s)[i] == Halved(s[i])
    {
      RotBytesAt(s, i);
      ShiftInZero(s[i], s[Before(i, 8)]);
    }
  }

  lemma {:induction false} RotationOfZero(n: nat)
    ensures RotRight(0, n) == 0
  {
    hide RotRight1;
    ZeroTurns();
    if n != 0 {
      RotationOfZero(n - 1);
    }
  }

  lemma ZeroTurns()
    ensures RotRight1(0) == 0 && Transpose(0) == 0 && Xor(0, 0) == 0 && Word(0, 0, 0, 0) == 0
    ensures Byte0(0) == 0 && Byte1(0) == 0 && Byte2(0) == 0 && Byte3(0) == 0
    ensures ShiftIn(0, 0) == 0 && WithFeedback(0, 0) == 0
  {
  }

  lemma ZeroFeedback()
    ensures Feedback(ZEROS) == 0
  {
  }

  lemma {:induction false} ZeroLfsr(n: nat)
    ensures Lfsr(ZEROS, n) == ZEROS
  {
    hide LfsrStep, Feedback;
    ZeroByteStays();
    ZeroFeedback();
    if n != 0 {
      ZeroLfsr(n - 1);
      QuietStep(0, 0, 0, 0);
    }
  }

  lemma ZeroRoundKeys(count: nat)
    ensures RoundKeys(ZEROS, count) == ZEROS
  {
    hide Expand, Word, Byte0, Byte1, Byte2, Byte3, Lfsr;
    ZeroTurns();
    ZeroExpands();
    ZeroLfsr(count);
    assert ZEROS[..4] == [0, 0, 0, 0] && ZEROS[4..] == [0, 0, 0, 0];
    assert BytesOf(0) + BytesOf(0) == ZEROS;
  }

  lemma ZeroExpands()
    ensures Expand(0) == 0
  {
    hide Xor, RotRight, Transpose, LowNibble;
    ZeroTurns();
    RotationOfZero(LowNibble(Byte2(0)) + 1);
    RotationOfZero(LowNibble(Byte3(0)) + 1);
  }

  lemma OneTurn(w: bv32)
    requires LowNibble(Byte2(w)) == 0 && LowNibble(Byte3(w)) == 0
    ensures Expand(w) == Xor(RotRight1(Transpose(w)), RotRight1(w))
  {
    hide LowNibble, Transpose, Xor, RotRight1;
    assert RotRight(w, 1) == RotRight1(RotRight(w, 0));
    assert RotRight(Transpose(w), 1) == RotRight1(RotRight(Transpose(w), 0));
  }

  lemma OneBitNibbles()
    ensures LowNibble(Byte2(0x8000_0000)) == 0 && LowNibble(Byte3(0x8000_0000)) == 0
    ensures LowNibble(Byte2(0x80)) == 0 && LowNibble(Byte3(0x80)) == 0
  {
  }

  lemma OneBitTurns()
    ensures Xor(RotRight1(Transpose(0x8000_0000)), RotRight1(0x8000_0000)) == 0x4000_4000
    ensures Xor(RotRight1(Transpose(0x80)), RotRight1(0x80)) == 0x0040_0040
    ensures Word(0x80, 0, 0, 0) == 0x8000_0000 && Word(0, 0, 0, 0x80) == 0x80
  {
  }

  lemma OneBitBytes()
    ensures BytesOf(0x4000_4000) == [0x40, 0, 0x40, 0] && BytesOf(0x0040_0040) == [0, 0x40, 0, 0x40]
  {
  }

  /** A salt with one bit in its first word. */
  function OneBitSalt(late: bool): (salt: seq<bv8>)
    ensures |salt| == 8
  {
    if late then LATE_BIT else FIRST_BIT
  }

  function OneBitState(late: bool, bit: bv8): (s: seq<bv8>)
    ensures |s| == 8
  {
    if late then Quiet(0, bit, 0, bit) else Quiet(bit, 0, bit, 0)
  }

  lemma OneBitExpands(late: bool)
    ensures var salt := OneBitSalt(late);
      BytesOf(Expand(WordOf(salt[..4]))) + BytesOf(Expand(WordOf(salt[4..]))) == OneBitState(late, 0x40)
  {
    hide Expand, Word, BytesOf;
    var salt := OneBitSalt(late);
    OneBitNibbles();
    OneBitTurns();
    OneBitBytes();
    OneTurn(0x8000_0000);
    OneTurn(0x80);
    ZeroTurns();
    ZeroExpands();
    ZeroBytes();
    assert salt[..4] == if late then [0, 0, 0, 0x80] else [0x80, 0, 0, 0];
    assert salt[4..] == [0, 0, 0, 0];
  }

  lemma ZeroBytes()
    ensures BytesOf(0) == [0, 0, 0, 0]
  {
  }

  lemma HalvedBits()
    ensures Halved(0x40) == 0x20 && Halved(0x20) == 0x10 && Halved(0x10) == 8 && Halved(0) == 0
    ensures LowBit(0x40) == LowBit(0x20) == LowBit(0x10) == LowBit(0) == 0
  {
  }

  lemma FirstTaps()
    ensures Feedback(Quiet(0x40, 0, 0x40, 0)) == 0 && Feedback(Quiet(0x20, 0, 0x20, 0)) == 0
    ensures Feedback(Quiet(0x10, 0, 0x10, 0)) == 0
  {
  }

  lemma LateTaps()
    ensures Feedback(Quiet(0, 0x40, 0, 0x40)) == 0 && Feedback(Quiet(0, 0x20, 0, 0x20)) == 0
    ensures Feedback(Quiet(0, 0x10, 0, 0x10)) == 0
  {
  }

  /** Two or three steps halve the bit two or three times. */
  lemma OneBitSteps(late: bool, count: nat)
    requires 2 <= count <= 3
    ensures Lfsr(OneBitState(late, 0x40), count) == OneBitState(late, if count == 2 then 0x10 else 8)
  {
    hide Quiet, LfsrStep, Feedback, LowBit, Halved;
    HalvedBits();
    FirstTaps();
    LateTaps();
    if late {
      QuietStep(0, 0x40, 0, 0x40);
      QuietStep(0, 0x20, 0, 0x20);
      QuietStep(0, 0x10, 0, 0x10);
    } else {
      QuietStep(0x40, 0, 0x40, 0);
      QuietStep(0x20, 0, 0x20, 0);
      QuietStep(0x10, 0, 0x10, 0);
    }
    ThreeSteps(OneBitState(late, 0x40));
  }

  lemma RoundKeysFrom(salt: seq<bv8>, start: seq<bv8>, count: nat)
    requires |salt| == |start| == 8
    requires BytesOf(Expand(WordOf(salt[..4]))) + BytesOf(Expand(WordOf(salt[4..]))) == start
    ensures RoundKeys(salt, count) == Lfsr(start, count)
  {
    hide Expand, BytesOf, WordOf, Lfsr;
  }

  lemma ThreeSteps(s: seq<bv8>)
    requires |s| == 8
    ensures Lfsr(s, 2) == LfsrStep(LfsrStep(s)) && Lfsr(s, 3) == LfsrStep(LfsrStep(LfsrStep(s)))
  {
    hide LfsrStep;
    assert Lfsr(s, 1) == LfsrStep(Lfsr(s, 0));
    assert Lfsr(s, 2) == LfsrStep(Lfsr(s, 1));
  }

  // ----- adding without a carry -----

  /** At most one bit in each byte, none of them the top one. */
  predicate Sparse(k: bv8) { k == 0 || k == 8 || k == 0x10 }

  predicate MeetsByte(a: bv8, b: bv8) { a & b != 0 }

  lemma OrAdds(x: bv8, k: bv8)
    requires Sparse(k) && !MeetsByte(x, k)
    ensures Nat8(OrByte(x, k)) == Nat8(x) + Nat8(k)
  {
    assert OrByte(x, k) == x + k;
  }

  lemma OrHighBytes(w: bv32, k: bv32)
    ensures Byte0(Or(w, k)) == OrByte(Byte0(w), Byte0(k)) && Byte1(Or(w, k)) == OrByte(Byte1(w), Byte1(k))
  {
  }

  lemma OrLowBytes(w: bv32, k: bv32)
    ensures Byte2(Or(w, k)) == OrByte(Byte2(w), Byte2(k)) && Byte3(Or(w, k)) == OrByte(Byte3(w), Byte3(k))
  {
  }

  lemma MeetsBytewise(w: bv32, k: bv32)
    requires !Meets(w, k)
    ensures !MeetsByte(Byte0(w), Byte0(k)) && !MeetsByte(Byte1(w), Byte1(k))
    ensures !MeetsByte(Byte2(w), Byte2(k)) && !MeetsByte(Byte3(w), Byte3(k))
  {
  }

  lemma ValueOfSwap(w: bv32)
    ensures Value(SwapBytes(w))
         == Nat8(Byte3(w)) * 0x100_0000 + Nat8(Byte2(w)) * 0x1_0000 + Nat8(Byte1(w)) * 0x100 + Nat8(Byte0(w))
  {
    hide Value, Word, Byte0, Byte1, Byte2, Byte3, Nat8;
    ValueOfWord(Byte3(w), Byte2(w), Byte1(w), Byte0(w));
  }

  predicate SparseWord(k: bv32) {
    Sparse(Byte0(k)) && Sparse(Byte1(k)) && Sparse(Byte2(k)) && Sparse(Byte3(k))
  }

  lemma AddDisjoint(w: bv32, k: bv32)
    requires SparseWord(k) && !Meets(w, k)
    ensures AddLittle(w, k) == Or(w, k)
  {
    hide Value, Truncate, SwapBytes, Byte0, Byte1, Byte2, Byte3, Nat8, OrByte, Or, Meets, MeetsByte, Sparse;
    MeetsBytewise(w, k);
    OrHighBytes(w, k);
    OrLowBytes(w, k);
    OrAdds(Byte0(w), Byte0(k));
    OrAdds(Byte1(w), Byte1(k));
    OrAdds(Byte2(w), Byte2(k));
    OrAdds(Byte3(w), Byte3(k));
    ValueOfSwap(w);
    ValueOfSwap(k);
    ValueOfSwap(Or(w, k));
    TruncateOfValue(SwapBytes(Or(w, k)));
    SwapTwice(Or(w, k));
  }

  // ----- half-rounds on known blocks -----

  /** The byte that a level looks at, in the lowest eight bits. */
  function Picked(left: bv32, right: bv32, level: nat): bv32 {
    if level == 0 then left >> 24 else if level == 1 then left >> 16 else if level == 2 then left >> 8
    else if level == 3 then left else if level == 4 then right >> 24 else if level == 5 then right >> 16
    else if level == 6 then right >> 8 else right
  }

  function Turned2(x: bv32): bv32 { (x >> 2) | (x << 30) }

  function Turned3(x: bv32): bv32 { (x >> 3) | (x << 29) }

  function Turned4(x: bv32): bv32 { (x >> 4) | (x << 28) }

  function TurnedBy(x: bv32, turns: nat): bv32 {
    if turns == 1 then RotRight1(x)
    else if turns == 2 then Turned2(x)
    else if turns == 3 then Turned3(x)
    else Turned4(x)
  }

  lemma SecondTurn(x: bv32)
    ensures RotRight1(RotRight1(x)) == Turned2(x)
  {
  }

  lemma ThirdTurn(x: bv32)
    ensures RotRight1(Turned2(x)) == Turned3(x)
  {
  }

  lemma FourthTurn(x: bv32)
    ensures RotRight1(Turned3(x)) == Turned4(x)
  {
  }

  lemma TurnedByIs(x: bv32, turns: nat)
    requires 1 <= turns <= 4
    ensures RotRight(x, turns) == TurnedBy(x, turns)
  {
    hide RotRight1, Turned2, Turned3, Turned4;
    SecondTurn(x);
    ThirdTurn(x);
    FourthTurn(x);
    assert RotRight(x, 1) == RotRight1(RotRight(x, 0));
    assert RotRight(x, 2) == RotRight1(RotRight(x, 1));
    assert RotRight(x, 3) == RotRight1(RotRight(x, 2));
    assert RotRight(x, 4) == RotRight1(RotRight(x, 3));
  }

  lemma PickedIs(b: Block, level: nat)
    requires level < 8
    ensures Picked(b.left, b.right, level) & 7 < 8
    ensures LevelByte(b, level) & 7 == (Picked(b.left, b.right, level) & 7) as bv8
  {
    if level < 4 {
      PickedLeft(b, level);
    } else {
      PickedRight(b, level);
    }
  }

  lemma PickedLeft(b: Block, level: nat)
    requires level < 4
    ensures Picked(b.left, b.right, level) & 7 < 8
    ensures LevelByte(b, level) & 7 == (Picked(b.left, b.right, level) & 7) as bv8
  {
  }

  lemma PickedRight(b: Block, level: nat)
    requires 4 <= level < 8
    ensures Picked(b.left, b.right, level) & 7 < 8
    ensures LevelByte(b, level) & 7 == (Picked(b.left, b.right, level) & 7) as bv8
  {
  }

  predicate Chooses(picked: bv32, turns: nat) {
    picked & 3 == if turns == 1 then 0 else if turns == 2 then 1 else if turns == 3 then 2 else 3
  }

  lemma TurnsOf(b: bv8, picked: bv32, turns: nat)
    requires 1 <= turns <= 4 && picked & 7 < 8 && b & 7 == (picked & 7) as bv8 && Chooses(picked, turns)
    ensures Turns(b) == turns
  {
    assert b & 3 == (b & 7) & 3;
    assert (picked & 7) & 3 == picked & 3;
  }

  lemma TurnsAt(b: Block, level: nat, turns: nat)
    requires level < 8 && 1 <= turns <= 4 && Chooses(Picked(b.left, b.right, level), turns)
    ensures Turns(LevelByte(b, level)) == turns
  {
    hide Picked, LevelByte, Turns, Chooses;
    PickedIs(b, level);
    TurnsOf(LevelByte(b, level), Picked(b.left, b.right, level), turns);
  }

  /** A half-round for a known rotation and a key word that is added without a
      carry. */
  lemma KeyedStep(left: bv32, right: bv32, level: nat, key: bv32, turns: nat, mixed: bv32, next: bv32)
    requires level < 8 && 1 <= turns <= 4 && Chooses(Picked(left, right, level), turns)
    requires mixed == TurnedBy(Xor(left, right), turns)
    requires SparseWord(key) && !Meets(mixed, key) && next == Or(mixed, key)
    ensures HalfRound(Block(left, right), level, key) == Block(next, left)
  {
    hide Chooses, Picked, TurnedBy, RotRight, LevelByte, Turns, AddLittle, Xor, Meets, Or, SparseWord;
    TurnsAt(Block(left, right), level, turns);
    TurnedByIs(Xor(left, right), turns);
    AddDisjoint(mixed, key);
  }

  function ThreeHalves(b: Block, level: nat, key: bv32): Block
    requires level < 8
  {
    HalfRound(HalfRound(HalfRound(b, level, key), level, 0), level, key)
  }

  /** Round keys with this first word and a zero second word. */
  predicate QuietKeys(keys: seq<bv8>, key: bv32) {
    |keys| == 8 && WordOf(keys[..4]) == key && WordOf(keys[4..]) == 0
  }

  lemma MeetAfterThree(a: Block, b: Block, level: nat, keysA: seq<bv8>, keysB: seq<bv8>, keyA: bv32, keyB: bv32)
    requires level < 8 && QuietKeys(keysA, keyA) && QuietKeys(keysB, keyB)
    requires ThreeHalves(a, level, keyA) == ThreeHalves(b, level, keyB)
    ensures TwoRounds(a, level, keysA) == TwoRounds(b, level, keysB)
  {
    hide HalfRound, WordOf;
  }

  lemma SimpleWords()
    ensures Word(0, 0, 0, 0) == 0 && Word(0x10, 0, 0x10, 0) == 0x1000_1000 && Word(8, 0, 8, 0) == 0x0800_0800
    ensures Word(0, 0x10, 0, 0x10) == 0x0010_0010 && Word(0, 8, 0, 8) == 0x0008_0008
  {
  }

  lemma SimpleKeys()
    ensures QuietKeys(ZEROS, 0)
    ensures QuietKeys(Quiet(0x10, 0, 0x10, 0), 0x1000_1000) && QuietKeys(Quiet(8, 0, 8, 0), 0x0800_0800)
    ensures QuietKeys(Quiet(0, 0x10, 0, 0x10), 0x0010_0010) && QuietKeys(Quiet(0, 8, 0, 8), 0x0008_0008)
  {
    hide Word;
    SimpleWords();
  }

  // ----- the blocks -----

  lemma CollisionAtLevel0()
    ensures ThreeHalves(Block(0xD85A_B56E, 0x1641_EB76), 0, 0x0010_0010)
         == ThreeHalves(Block(0x393E_23A5, 0xA368_99F4), 0, 0x0008_0008)
  {
    hide HalfRound;
    KeyedStep(0xD85A_B56E, 0x1641_EB76, 0, 0x0010_0010, 1, 0x670D_AF0C, 0x671D_AF1C);
    KeyedStep(0x671D_AF1C, 0xD85A_B56E, 0, 0, 4, 0x2BF4_71A7, 0x2BF4_71A7);
    KeyedStep(0x2BF4_71A7, 0x671D_AF1C, 0, 0x0010_0010, 4, 0xB4CE_9DEB, 0xB4DE_9DFB);
    KeyedStep(0x393E_23A5, 0xA368_99F4, 0, 0x0008_0008, 2, 0x6695_AE94, 0x669D_AE9C);
    KeyedStep(0x669D_AE9C, 0x393E_23A5, 0, 0, 3, 0x2BF4_71A7, 0x2BF4_71A7);
    KeyedStep(0x2BF4_71A7, 0x669D_AE9C, 0, 0x0008_0008, 4, 0xB4D6_9DF3, 0xB4DE_9DFB);
  }

  lemma CollisionAtLevel1()
    ensures ThreeHalves(Block(0x4F28_92DA, 0x5A86_8EE3), 1, 0x1000_1000)
         == ThreeHalves(Block(0x7029_587E, 0x3B73_000A), 1, 0x0800_0800)
  {
    hide HalfRound;
    KeyedStep(0x4F28_92DA, 0x5A86_8EE3, 1, 0x1000_1000, 1, 0x8AD7_0E1C, 0x9AD7_1E1C);
    KeyedStep(0x9AD7_1E1C, 0x4F28_92DA, 1, 0, 4, 0x6D5F_F8CC, 0x6D5F_F8CC);
    KeyedStep(0x6D5F_F8CC, 0x9AD7_1E1C, 1, 0x1000_1000, 4, 0x0F78_8E6D, 0x1F78_9E6D);
    KeyedStep(0x7029_587E, 0x3B73_000A, 1, 0x0800_0800, 2, 0x12D6_961D, 0x1AD6_9E1D);
    KeyedStep(0x1AD6_9E1D, 0x7029_587E, 1, 0, 3, 0x6D5F_F8CC, 0x6D5F_F8CC);
    KeyedStep(0x6D5F_F8CC, 0x1AD6_9E1D, 1, 0x0800_0800, 4, 0x1778_966D, 0x1F78_9E6D);
  }

  lemma CollisionAtLevel2()
    ensures ThreeHalves(Block(0xAE25_00AB, 0x3F36_FEFD), 2, 0x0010_0010)
         == ThreeHalves(Block(0x3A47_8173, 0x1E00_7BBE), 2, 0x0008_0008)
  {
    hide HalfRound;
    KeyedStep(0xAE25_00AB, 0x3F36_FEFD, 2, 0x0010_0010, 1, 0x4889_FF2B, 0x4899_FF3B);
    KeyedStep(0x4899_FF3B, 0xAE25_00AB, 2, 0, 4, 0x0E6B_CFF9, 0x0E6B_CFF9);
    KeyedStep(0x0E6B_CFF9, 0x4899_FF3B, 2, 0x0010_0010, 4, 0x246F_230C, 0x247F_231C);
    KeyedStep(0x3A47_8173, 0x1E00_7BBE, 2, 0x0008_0008, 2, 0x4911_FEB3, 0x4919_FEBB);
    KeyedStep(0x4919_FEBB, 0x3A47_8173, 2, 0, 3, 0x0E6B_CFF9, 0x0E6B_CFF9);
    KeyedStep(0x0E6B_CFF9, 0x4919_FEBB, 2, 0x0008_0008, 4, 0x2477_2314, 0x247F_231C);
  }

  lemma CollisionAtLevel3()
    ensures ThreeHalves(Block(0x05BC_6060, 0x9332_705E), 3, 0x1000_1000)
         == ThreeHalves(Block(0x743B_2421, 0x3921_645A), 3, 0x0800_0800)
  {
    hide HalfRound;
    KeyedStep(0x05BC_6060, 0x9332_705E, 3, 0x1000_1000, 1, 0x4B47_081F, 0x5B47_181F);
    KeyedStep(0x5B47_181F, 0x05BC_6060, 3, 0, 4, 0xF5EF_B787, 0xF5EF_B787);
    KeyedStep(0xF5EF_B787, 0x5B47_181F, 3, 0x1000_1000, 4, 0x8AEA_8AF9, 0x9AEA_9AF9);
    KeyedStep(0x743B_2421, 0x3921_645A, 3, 0x0800_0800, 2, 0xD346_901E, 0xDB46_981E);
    KeyedStep(0xDB46_981E, 0x743B_2421, 3, 0, 3, 0xF5EF_B787, 0xF5EF_B787);
    KeyedStep(0xF5EF_B787, 0xDB46_981E, 3, 0x0800_0800, 4, 0x92EA_92F9, 0x9AEA_9AF9);
  }

  lemma CollisionAtLevel4()
    ensures ThreeHalves(Block(0x1F8E_F3C7, 0x77E9_06D7), 4, 0)
         == ThreeHalves(Block(0x6C9C_766B, 0x974A_09F1), 4, 0)
  {
    hide HalfRound;
    KeyedStep(0x1F8E_F3C7, 0x77E9_06D7, 4, 0, 4, 0x0686_7F51, 0x0686_7F51);
    KeyedStep(0x0686_7F51, 0x1F8E_F3C7, 4, 0, 4, 0x6190_88C9, 0x6190_88C9);
    KeyedStep(0x6190_88C9, 0x0686_7F51, 4, 0, 3, 0x0CE2_DEF3, 0x0CE2_DEF3);
    KeyedStep(0x6C9C_766B, 0x974A_09F1, 4, 0, 4, 0xAFBD_67F9, 0xAFBD_67F9);
    KeyedStep(0xAFBD_67F9, 0x6C9C_766B, 4, 0, 1, 0x6190_88C9, 0x6190_88C9);
    KeyedStep(0x6190_88C9, 0xAFBD_67F9, 4, 0, 4, 0x0CE2_DEF3, 0x0CE2_DEF3);
  }

  lemma CollisionAtLevel5()
    ensures ThreeHalves(Block(0xB649_6C31, 0x0406_3DA8), 5, 0)
         == ThreeHalves(Block(0xF926_034B, 0x301E_793C), 5, 0)
  {
    hide HalfRound;
    KeyedStep(0xB649_6C31, 0x0406_3DA8, 5, 0, 3, 0x3649_EA33, 0x3649_EA33);
    KeyedStep(0x3649_EA33, 0xB649_6C31, 5, 0, 2, 0xA000_2180, 0xA000_2180);
    KeyedStep(0xA000_2180, 0x3649_EA33, 5, 0, 2, 0xE592_72EC, 0xE592_72EC);
    KeyedStep(0xF926_034B, 0x301E_793C, 5, 0, 3, 0xF927_0F4E, 0xF927_0F4E);
    KeyedStep(0xF927_0F4E, 0xF926_034B, 5, 0, 3, 0xA000_2180, 0xA000_2180);
    KeyedStep(0xA000_2180, 0xF927_0F4E, 5, 0, 4, 0xE592_72EC, 0xE592_72EC);
  }

  lemma CollisionAtLevel6()
    ensures ThreeHalves(Block(0x3334_6D6A, 0xAE96_8229), 6, 0)
         == ThreeHalves(Block(0xC1AA_3C85, 0xCEFB_1AA2), 6, 0)
  {
    hide HalfRound;
    KeyedStep(0x3334_6D6A, 0xAE96_8229, 6, 0, 3, 0x73B4_5DE8, 0x73B4_5DE8);
    KeyedStep(0x73B4_5DE8, 0x3334_6D6A, 6, 0, 2, 0x9020_0C20, 0x9020_0C20);
    KeyedStep(0x9020_0C20, 0x73B4_5DE8, 6, 0, 2, 0x38E5_1472, 0x38E5_1472);
    KeyedStep(0xC1AA_3C85, 0xCEFB_1AA2, 6, 0, 3, 0xE1EA_24C4, 0xE1EA_24C4);
    KeyedStep(0xE1EA_24C4, 0xC1AA_3C85, 6, 0, 1, 0x9020_0C20, 0x9020_0C20);
    KeyedStep(0x9020_0C20, 0xE1EA_24C4, 6, 0, 1, 0x38E5_1472, 0x38E5_1472);
  }

  lemma CollisionAtLevel7()
    ensures ThreeHalves(Block(0x1851_5FA3, 0x22F3_68E4), 7, 0)
         == ThreeHalves(Block(0x6A50_2F3C, 0x9FB0_6044), 7, 0)
  {
    hide HalfRound;
    KeyedStep(0x1851_5FA3, 0x22F3_68E4, 7, 0, 1, 0x9D51_1BA3, 0x9D51_1BA3);
    KeyedStep(0x9D51_1BA3, 0x1851_5FA3, 7, 0, 4, 0x0850_0440, 0x0850_0440);
    KeyedStep(0x0850_0440, 0x9D51_1BA3, 7, 0, 4, 0x3950_11FE, 0x3950_11FE);
    KeyedStep(0x6A50_2F3C, 0x9FB0_6044, 7, 0, 1, 0x7AF0_27BC, 0x7AF0_27BC);
    KeyedStep(0x7AF0_27BC, 0x6A50_2F3C, 7, 0, 1, 0x0850_0440, 0x0850_0440);
    KeyedStep(0x0850_0440, 0x7AF0_27BC, 7, 0, 1, 0x3950_11FE, 0x3950_11FE);
  }

  lemma HighBlocks(level: nat) returns (a: Block, b: Block)
    requires 4 <= level < 8
    ensures a != b && ThreeHalves(a, level, 0) == ThreeHalves(b, level, 0)
    ensures Picked(a.left, a.right, level) & 7 == Picked(b.left, b.right, level) & 7
  {
    hide ThreeHalves;
    if level == 4 {
      CollisionAtLevel4();
      return Block(0x1F8E_F3C7, 0x77E9_06D7), Block(0x6C9C_766B, 0x974A_09F1);
    } else if level == 5 {
      CollisionAtLevel5();
      return Block(0xB649_6C31, 0x0406_3DA8), Block(0xF926_034B, 0x301E_793C);
    } else if level == 6 {
      CollisionAtLevel6();
      return Block(0x3334_6D6A, 0xAE96_8229), Block(0xC1AA_3C85, 0xCEFB_1AA2);
    } else {
      CollisionAtLevel7();
      return Block(0x1851_5FA3, 0x22F3_68E4), Block(0x6A50_2F3C, 0x9FB0_6044);
    }
  }

  /** The first word of the round keys after two or three steps. */
  function KeyWord(level: nat, steps: nat): bv32 {
    if level % 2 == 1 then if steps == 2 then 0x1000_1000 else 0x0800_0800
    else if steps == 2 then 0x0010_0010 else 0x0008_0008
  }

  lemma LowBlocks(level: nat) returns (a: Block, b: Block)
    requires level < 4
    ensures a != b && ThreeHalves(a, level, KeyWord(level, 2)) == ThreeHalves(b, level, KeyWord(level, 3))
    ensures Picked(a.left, a.right, level) & 7 == 0 && Picked(b.left, b.right, level) & 7 == 1
  {
    hide ThreeHalves;
    if level == 0 {
      CollisionAtLevel0();
      return Block(0xD85A_B56E, 0x1641_EB76), Block(0x393E_23A5, 0xA368_99F4);
    } else if level == 1 {
      CollisionAtLevel1();
      return Block(0x4F28_92DA, 0x5A86_8EE3), Block(0x7029_587E, 0x3B73_000A);
    } else if level == 2 {
      CollisionAtLevel2();
      return Block(0xAE25_00AB, 0x3F36_FEFD), Block(0x3A47_8173, 0x1E00_7BBE);
    } else {
      CollisionAtLevel3();
      return Block(0x05BC_6060, 0x9332_705E), Block(0x743B_2421, 0x3921_645A);
    }
  }

  // ----- the seeds -----

  function SeedFor(b: Block): (seed: seq<bv8>)
    ensures |seed| == 8
  {
    UnpermuteIn(BlockBytes(b))
  }

  lemma KeyOfBlock(b: Block, salt: seq<bv8>, level: nat)
    requires level < 8 && |salt| == 8
    ensures PermuteIn(SeedFor(b))[level] == LevelByte(b, level) && BlockOf(PermuteIn(SeedFor(b))) == b
    ensures CipherKey(SeedFor(b), salt, level)
         == PermuteOut(BlockBytes(TwoRounds(b, level, RoundKeys(salt, LfsrCount(PermuteIn(SeedFor(b)), level)))))
  {
    hide RoundKeys, TwoRounds, BlockOf, BlockBytes, PermuteIn, PermuteOut, UnpermuteIn, LevelByte, LfsrCount;
    BlockRoundTrip(b, BlockBytes(b));
    LevelByteIndexes(b, level);
  }

  lemma SameLowBits(a: Block, b: Block, level: nat)
    requires level < 8
    requires Picked(a.left, a.right, level) & 7 == Picked(b.left, b.right, level) & 7
    ensures LevelByte(a, level) & 7 == LevelByte(b, level) & 7
  {
    hide LevelByte;
    PickedIs(a, level);
    PickedIs(b, level);
  }

  /** Levels 4 to 7: equal counts, all-zero salt, one key. */
  lemma CollidingSeeds(level: nat) returns (s: seq<bv8>, t: seq<bv8>)
    requires 4 <= level < 8
    ensures |s| == |t| == |ZEROS| == 8 && s != t && SameCount(s, t, level)
    ensures CipherKey(s, ZEROS, level) == CipherKey(t, ZEROS, level)
  {
    hide CipherKey, LevelByte, Picked, PermuteIn, PermuteOut, BlockBytes, BlockOf, SeedFor, TwoRounds, ThreeHalves;
    hide LfsrCount, RoundKeys, QuietKeys;
    var a, b := HighBlocks(level);
    s, t := SeedFor(a), SeedFor(b);
    SameLowBits(a, b, level);
    KeyOfBlock(a, ZEROS, level);
    KeyOfBlock(b, ZEROS, level);
    ZeroRoundKeys(LfsrCount(PermuteIn(s), level));
    ZeroRoundKeys(LfsrCount(PermuteIn(t), level));
    SimpleKeys();
    MeetAfterThree(a, b, level, ZEROS, ZEROS, 0, 0);
  }

  lemma CountOfBlock(b: Block, level: nat, low: nat)
    requires level < 8 && low < 2 && Picked(b.left, b.right, level) & 7 == if low == 0 then 0 else 1
    ensures Nat8(LevelByte(b, level) & 7) + 2 == low + 2
  {
    hide LevelByte, Picked;
    PickedIs(b, level);
  }

  /** Levels 0 to 3: different counts, a salt with one bit, one key. */
  lemma CollidingCounts(level: nat) returns (s: seq<bv8>, t: seq<bv8>, salt: seq<bv8>)
    requires level < 4
    ensures |s| == |t| == |salt| == 8 && s != t
    ensures CipherKey(s, salt, level) == CipherKey(t, salt, level)
  {
    hide CipherKey, LevelByte, Picked, PermuteIn, PermuteOut, BlockBytes, BlockOf, SeedFor, TwoRounds, ThreeHalves;
    hide RoundKeys, QuietKeys, Quiet, OneBitSalt, Lfsr, Expand, BytesOf, WordOf;
    var a, b := LowBlocks(level);
    s, t := SeedFor(a), SeedFor(b);
    salt := OneBitSalt(level % 2 == 0);
    CountOfBlock(a, level, 0);
    CountOfBlock(b, level, 1);
    KeyOfBlock(a, salt, level);
    KeyOfBlock(b, salt, level);
    OneBitExpands(level % 2 == 0);
    OneBitSteps(level % 2 == 0, 2);
    OneBitSteps(level % 2 == 0, 3);
    RoundKeysFrom(salt, OneBitState(level % 2 == 0, 0x40), 2);
    RoundKeysFrom(salt, OneBitState(level % 2 == 0, 0x40), 3);
    SimpleKeys();
    MeetAfterThree(a, b, level, RoundKeys(salt, 2), RoundKeys(salt, 3), KeyWord(level, 2), KeyWord(level, 3));
  }

  // ----- the exact conditions -----

  /** The level tells apart all seeds with the same shift-register count. */
  ghost predicate SeparatesSeeds(level: nat)
    requires level < 8
  {
    forall s, t, salt | |s| == |t| == |salt| == 8 && SameCount(s, t, level)
      :: CipherKey(s, salt, level) == CipherKey(t, salt, level) ==> s == t
  }

  /** Different seeds with the same count have different keys for every salt
      exactly at the levels up to 3. */
  lemma ExactlyTheLowLevelsSeparate(level: nat)
    requires level < 8
    ensures SeparatesSeeds(level) <==> level <= 3
  {
    hide CipherKey, SameCount;
    if level <= 3 {
      forall s, t, salt | |s| == |t| == |salt| == 8 && SameCount(s, t, level)
          && CipherKey(s, salt, level) == CipherKey(t, salt, level)
        ensures s == t
      {
        LevelsUpToThreeAreInjective(s, t, salt, level);
      }
    } else {
      var s, t := CollidingSeeds(level);
    }
  }

  /** Without that premise no level tells all seeds apart. */
  lemma NoLevelSeparatesAllSeeds(level: nat) returns (s: seq<bv8>, t: seq<bv8>, salt: seq<bv8>)
    requires level < 8
    ensures |s| == |t| == |salt| == 8 && s != t && CipherKey(s, salt, level) == CipherKey(t, salt, level)
  {
    hide CipherKey;
    if level < 4 {
      s, t, salt := CollidingCounts(level);
    } else {
      s, t := CollidingSeeds(level);
      salt := ZEROS;
    }
  }
}
