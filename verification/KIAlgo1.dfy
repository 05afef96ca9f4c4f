/** The KIAlgo1 provider: a feedback register turns the root, then two rounds on
    16-bit halves mix it into the regrouped seed. */
module KIAlgo1 {
  import opened Words
  import opened Provider

  // ----- 16-bit halves -----

  function RotLeft16One(x: bv16): bv16 { (x << 1) | (x >> 15) }

  function RotRight16One(x: bv16): bv16 { (x >> 1) | (x << 15) }

  function RotLeft16(x: bv16, n: nat): bv16 {
    if n == 0 then x else RotLeft16One(RotLeft16(x, n - 1))
  }

  function RotRight16(x: bv16, n: nat): bv16
    decreases n
  {
    if n == 0 then x else RotRight16(RotRight16One(x), n - 1)
  }

  lemma TurnsInvert(x: bv16)
    ensures RotRight16One(RotLeft16One(x)) == x
  {
  }

  lemma {:induction false} Rotation16Inverts(x: bv16, n: nat)
    ensures RotRight16(RotLeft16(x, n), n) == x
  {
    hide RotLeft16One, RotRight16One;
    if n != 0 {
      TurnsInvert(RotLeft16(x, n - 1));
      Rotation16Inverts(x, n - 1);
    }
  }

  predicate TopSet(x: bv16) { x & 0x8000 != 0 }

  function Twice(x: bv16): bv16 { x << 1 }

  function WithLow(x: bv16): bv16 { x | 1 }

  lemma CarryAround(x: bv16)
    ensures RotLeft16One(x) == if TopSet(x) then WithLow(Twice(x)) else Twice(x)
  {
    assert x >> 15 == if TopSet(x) then 1 else 0;
  }

  method RotateLeftU16(input: bv16, rotations: nat) returns (val: bv16)
    ensures val == RotLeft16(input, rotations)
  {
    hide RotLeft16One, TopSet, Twice, WithLow;
    val := input;
    for i := 0 to rotations
      invariant val == RotLeft16(input, i)
    {
      CarryAround(val);
      if !TopSet(val) {
        val := Twice(val);
      } else {
        val := Twice(val);
        val := WithLow(val);
      }
    }
  }

  method RotateRightU32(input: bv32, rotations: nat) returns (val: bv32)
    ensures val == RotRight(input, rotations)
  {
    hide RotRight1, Meets, Half, Or;
    val := input;
    for i := 0 to rotations
      invariant val == RotRight(input, i)
    {
      CarryRight(val);
      if !Meets(val, 1) {
        val := Half(val);
      } else {
        val := Half(val);
        val := Or(val, TOP);
      }
    }
  }

  function High8(x: bv16): bv8 { (x >> 8) as bv8 }

  function Low8(x: bv16): bv8 { (x & 0xFF) as bv8 }

  function Join8(high: bv8, low: bv8): bv16 { ((high as bv16) << 8) | (low as bv16) }

  lemma Join8Parts(x: bv16, high: bv8, low: bv8)
    ensures Join8(High8(x), Low8(x)) == x
    ensures High8(Join8(high, low)) == high && Low8(Join8(high, low)) == low
  {
  }

  function Value16(x: bv16): (n: nat)
    ensures n < 0x1_0000
  {
    Nat8(High8(x)) * 256 + Nat8(Low8(x))
  }

  /** The low 16 bits of an integer. */
  function Truncate16(n: int): bv16 {
    var m := n % 0x1_0000;
    Join8(Bits8(m / 256), Bits8(m % 256))
  }

  function Sum16(x: bv16, y: bv16): bv16 { Truncate16(Value16(x) + Value16(y)) }

  function Difference16(x: bv16, y: bv16): bv16 { Truncate16(Value16(x) - Value16(y)) }

  lemma ValueOfTruncate16(n: int)
    ensures Value16(Truncate16(n)) == n % 0x1_0000
  {
    hide Join8, High8, Low8, Nat8, Bits8;
    var m := n % 0x1_0000;
    Join8Parts(0, Bits8(m / 256), Bits8(m % 256));
  }

  lemma TruncateOfValue16(x: bv16)
    ensures Truncate16(Value16(x)) == x
  {
    hide Join8, High8, Low8, Nat8, Bits8;
    var m := Value16(x);
    assert m / 256 == Nat8(High8(x)) && m % 256 == Nat8(Low8(x));
    Nat8IsInjective(Bits8(m / 256), High8(x));
    Nat8IsInjective(Bits8(m % 256), Low8(x));
    Join8Parts(x, 0, 0);
  }

  lemma Sum16Inverts(x: bv16, y: bv16)
    ensures Difference16(Sum16(x, y), y) == x
  {
    hide Value16, Truncate16;
    ValueOfTruncate16(Value16(x) + Value16(y));
    TruncateOfValue16(x);
    SameTruncation16(Value16(Sum16(x, y)) - Value16(y), Value16(x));
  }

  lemma SameTruncation16(m: int, n: int)
    requires (m - n) % 0x1_0000 == 0
    ensures Truncate16(m) == Truncate16(n)
  {
    hide Join8, Bits8;
    assert m % 0x1_0000 == n % 0x1_0000;
  }

  function Xor16(x: bv16, y: bv16): bv16 { x ^ y }

  lemma Xor16Inverts(x: bv16, y: bv16)
    ensures Xor16(Xor16(x, y), y) == x
  {
  }

  /** Exclusive-or of words is exclusive-or of their halves. */
  lemma Xor16OfHalves(v: bv32, w: bv32)
    ensures LowHalf(Xor(v, w)) == Xor16(LowHalf(v), LowHalf(w))
    ensures HighHalf(Xor(v, w)) == Xor16(HighHalf(v), HighHalf(w))
  {
  }

  // ----- the root register -----

  predicate BitSet(input: bv32, mask: bv32) { input & mask != 0 }

  /** The parity of bits 0, 7, 17 and 26 goes in at the top. */
  function RootStep(root: bv32): bv32 {
    var msbSet := ((BitSet(root, 1) != BitSet(root, 0x80)) != BitSet(root, 0x2_0000)) != BitSet(root, 0x400_0000);
    RotRight1(WithTop(root, msbSet))
  }

  function WithTop(root: bv32, msbSet: bool): bv32 {
    (root & 0x7FFF_FFFF) | (if msbSet then 0x8000_0000 else 0)
  }

  /** The parity of bits 0, 7, 17 and 26, folded onto bit 0. */
  predicate OddTaps(root: bv32) { (root ^ (root >> 7) ^ (root >> 17) ^ (root >> 26)) & 1 == 1 }

  /** The low 31 bits moved down one place. */
  function Down(root: bv32): bv32 { (root >> 1) & 0x3FFF_FFFF }

  predicate OddWord(root: bv32) { root & 1 == 1 }

  /** Thirty bits under two more. */
  function Topped(bit31: bool, bit30: bool, low: bv32): bv32 {
    (if bit31 then 0x8000_0000 else 0) | (if bit30 then 0x4000_0000 else 0) | low
  }

  /** One step of the register in bits: bits 1 to 30 move down one place, the
      parity of the taps comes in above them and bit 0 at the top; the old top
      bit is lost. */
  lemma RootStepIs(root: bv32)
    ensures RootStep(root) == Topped(OddWord(root), OddTaps(root), Down(root))
  {
    hide BitSet, WithTop, RotRight1, OddTaps, OddWord, Down, Topped;
    TapsAreOdd(root);
    TurnedTop(root, OddTaps(root));
  }

  lemma TapsAreOdd(root: bv32)
    ensures OddTaps(root)
         == (((BitSet(root, 1) != BitSet(root, 0x80)) != BitSet(root, 0x2_0000)) != BitSet(root, 0x400_0000))
  {
  }

  lemma TurnedTop(root: bv32, msbSet: bool)
    ensures RotRight1(WithTop(root, msbSet)) == Topped(OddWord(root), msbSet, Down(root))
  {
  }

  predicate SameBelowTop(a: bv32, b: bv32) { a & 0x7FFF_FFFF == b & 0x7FFF_FFFF }

  /** So one step forgets the top bit and no more. */
  lemma RootStepForgetsOneBit(a: bv32, b: bv32)
    ensures RootStep(a) == RootStep(b) <==> SameBelowTop(a, b)
  {
    hide RootStep, OddTaps, OddWord, Down, Topped, SameBelowTop;
    RootStepIs(a);
    RootStepIs(b);
    if SameBelowTop(a, b) {
      SameTaps(a, b);
    }
    if RootStep(a) == RootStep(b) {
      ToppedPieces(a, OddTaps(a), b, OddTaps(b));
    }
  }

  lemma SameTaps(a: bv32, b: bv32)
    requires SameBelowTop(a, b)
    ensures OddTaps(a) == OddTaps(b) && Down(a) == Down(b) && OddWord(a) == OddWord(b)
  {
  }

  lemma ToppedPieces(a: bv32, p: bool, b: bv32, q: bool)
    requires Topped(OddWord(a), p, Down(a)) == Topped(OddWord(b), q, Down(b))
    ensures SameBelowTop(a, b)
  {
  }

  function RootAfter(root: bv32, n: nat): bv32 {
    if n == 0 then root else RootStep(RootAfter(root, n - 1))
  }

  method TurnRoot(root: bv32, rotationCount: nat) returns (rootRotated: bv32)
    ensures rootRotated == RootAfter(root, rotationCount)
  {
    hide BitSet, WithTop, RotRight1;
    rootRotated := root;
    for i := 0 to rotationCount
      invariant rootRotated == RootAfter(root, i)
    {
      var msbSet := ((BitSet(rootRotated, 1) != BitSet(rootRotated, 0x80)) != BitSet(rootRotated, 0x2_0000))
                    != BitSet(rootRotated, 0x400_0000);
      var topped := WithTop(rootRotated, msbSet);
      rootRotated := RotateRightU32(topped, 1);
      assert RotRight(topped, 1) == RotRight1(RotRight(topped, 0));
    }
  }

  // ----- the two rounds -----

  datatype Halves = Halves(high: bv16, low: bv16)

  function Mix(h: Halves, key: bv16, turns: nat): Halves {
    Halves(h.low, Sum16(RotLeft16(Xor16(h.high, h.low), turns), key))
  }

  function Unmix(h: Halves, key: bv16, turns: nat): Halves {
    Halves(Xor16(RotRight16(Difference16(h.low, key), turns), h.high), h.high)
  }

  lemma MixInverts(h: Halves, key: bv16, turns: nat)
    ensures Unmix(Mix(h, key, turns), key, turns) == h
  {
    hide Sum16, Difference16, RotLeft16, RotRight16, Xor16;
    var x := Xor16(h.high, h.low);
    Sum16Inverts(RotLeft16(x, turns), key);
    Rotation16Inverts(x, turns);
    Xor16Inverts(h.high, h.low);
  }

  function LowHalf(w: bv32): bv16 { (w & 0xFFFF) as bv16 }

  function HighHalf(w: bv32): bv16 { (w >> 16) as bv16 }

  function TwoRounds(h: Halves, root: bv32, turns: nat): Halves {
    Mix(Mix(h, LowHalf(root), turns), HighHalf(root), turns)
  }

  // ----- the provider -----

  /** Seed bytes 2, 6, 0, 4, the first the least significant. */
  function Regroup(seed: seq<bv8>): Halves
    requires |seed| == 8
  {
    Halves(Join8(seed[4], seed[0]), Join8(seed[6], seed[2]))
  }

  function RotationCount(seed: seq<bv8>): nat
    requires |seed| == 8
  {
    Nat8(seed[2] & 7) + 2
  }

  function MixedSeed(seed: seq<bv8>, root: bv32): Halves
    requires |seed| == 8
  {
    var n := RotationCount(seed);
    TwoRounds(Regroup(seed), RootAfter(root, n), n)
  }

  function KeyOf(level: bv8, h: Halves): (key: seq<bv8>)
    ensures |key| == 7
  {
    [level, Low8(h.low), High8(h.low), High8(h.high), Low8(h.high), 0xFF, 0xFF]
  }

  method GenerateKey(seed: seq<bv8>, keyLength: int, level: bv8, root: bv32) returns (key: Key<bv8>)
    ensures key == if |seed| != 8 || keyLength != 7 then NoKey else KeyBytes(KeyOf(level, MixedSeed(seed, root)))
  {
    if |seed| != 8 || keyLength != 7 {
      return NoKey;
    }
    hide TwoRounds, LowHalf, HighHalf, RootAfter, Join8, High8, Low8, Word, Byte3, KeyOf, Nat8;
    var seedRegrouped := Word(seed[4], seed[0], seed[6], seed[2]);
    RegroupedHalves(seed);
    BytesOfWord(seed[4], seed[0], seed[6], seed[2]);
    var rotationCount := Nat8(Byte3(seedRegrouped) & 7) + 2;
    var rootRotated := TurnRoot(root, rotationCount);
    var seedHigh, seedLow := MixInPlace(HighHalf(seedRegrouped), LowHalf(seedRegrouped), rootRotated, rotationCount);
    var bytes := Assemble(level, seedHigh, seedLow);
    key := KeyBytes(bytes);
  }

  method Assemble(level: bv8, seedHigh: bv16, seedLow: bv16) returns (key: seq<bv8>)
    ensures key == KeyOf(level, Halves(seedHigh, seedLow))
  {
    hide High8, Low8;
    var outKey := new bv8[7](_ => 0);
    outKey[1] := Low8(seedLow);
    outKey[2] := High8(seedLow);
    outKey[3] := High8(seedHigh);
    outKey[4] := Low8(seedHigh);
    outKey[0] := level;
    outKey[5] := 0xFF;
    outKey[6] := 0xFF;
    key := outKey[..];
  }

  function Shr16(w: bv32): bv32 { w >> 16 }

  lemma HalvesOfShift(w: bv32)
    ensures LowHalf(Shr16(w)) == HighHalf(w)
  {
  }

  method MixInPlace(seedHigh0: bv16, seedLow0: bv16, root: bv32, rotationCount: nat)
    returns (seedHigh: bv16, seedLow: bv16)
    ensures Halves(seedHigh, seedLow) == TwoRounds(Halves(seedHigh0, seedLow0), root, rotationCount)
  {
    hide Sum16, RotLeft16, Xor16, LowHalf, HighHalf, Shr16;
    ghost var start := Halves(seedHigh0, seedLow0);
    HalvesOfShift(root);
    var rootRotated := root;
    seedHigh, seedLow := seedHigh0, seedLow0;
    for i := 0 to 2
      invariant rootRotated == if i == 0 then root else if i == 1 then Shr16(root) else Shr16(Shr16(root))
      invariant Halves(seedHigh, seedLow) == if i == 0 then start
        else if i == 1 then Mix(start, LowHalf(root), rotationCount) else TwoRounds(start, root, rotationCount)
    {
      seedHigh := Xor16(seedHigh, seedLow);
      seedHigh := RotateLeftU16(seedHigh, rotationCount);
      var tangled := Sum16(seedHigh, LowHalf(rootRotated));
      rootRotated := Shr16(rootRotated);
      seedHigh := seedLow;
      seedLow := tangled;
    }
  }

  lemma RegroupedHalves(seed: seq<bv8>)
    requires |seed| == 8
    ensures var w := Word(seed[4], seed[0], seed[6], seed[2]);
      Halves(HighHalf(w), LowHalf(w)) == Regroup(seed)
  {
  }

  // ----- injectivity -----

  lemma TwoRoundsAreInjective(g: Halves, h: Halves, root: bv32, turns: nat)
    requires TwoRounds(g, root, turns) == TwoRounds(h, root, turns)
    ensures g == h
  {
    hide Mix, Unmix, LowHalf, HighHalf;
    var k, l := LowHalf(root), HighHalf(root);
    MixInverts(Mix(g, k, turns), l, turns);
    MixInverts(Mix(h, k, turns), l, turns);
    MixInverts(g, k, turns);
    MixInverts(h, k, turns);
  }

  lemma KeyOfIsInjective(level: bv8, g: Halves, h: Halves)
    requires KeyOf(level, g)[1..5] == KeyOf(level, h)[1..5]
    ensures g == h
  {
    hide High8, Low8, Join8;
    var a, b := KeyOf(level, g)[1..5], KeyOf(level, h)[1..5];
    assert a[0] == b[0] && a[1] == b[1] && a[2] == b[2] && a[3] == b[3];
    Join8Parts(g.low, 0, 0);
    Join8Parts(g.high, 0, 0);
    Join8Parts(h.low, 0, 0);
    Join8Parts(h.high, 0, 0);
  }

  /** For a fixed root, among seeds whose byte 2 has the same low three bits, key
      bytes 1 to 4 agree exactly when seed bytes 0, 2, 4 and 6 agree. */
  lemma KeysSeparateSeeds(s: seq<bv8>, t: seq<bv8>, level: bv8, root: bv32)
    requires |s| == 8 && |t| == 8 && s[2] & 7 == t[2] & 7
    ensures KeyOf(level, MixedSeed(s, root))[1..5] == KeyOf(level, MixedSeed(t, root))[1..5]
       <==> s[0] == t[0] && s[2] == t[2] && s[4] == t[4] && s[6] == t[6]
  {
    hide TwoRounds, RootAfter, KeyOf, Join8, Nat8;
    if KeyOf(level, MixedSeed(s, root))[1..5] == KeyOf(level, MixedSeed(t, root))[1..5] {
      KeyOfIsInjective(level, MixedSeed(s, root), MixedSeed(t, root));
      var n := RotationCount(s);
      assert RotationCount(t) == n;
      TwoRoundsAreInjective(Regroup(s), Regroup(t), RootAfter(root, n), n);
      Join8Parts(0, s[4], s[0]);
      Join8Parts(0, t[4], t[0]);
      Join8Parts(0, s[6], s[2]);
      Join8Parts(0, t[6], t[2]);
    }
  }
}
