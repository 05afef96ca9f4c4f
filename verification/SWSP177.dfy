/** The SWSP177 provider: 35 rounds of a one-bit rotation and an exclusive-or
    with the key constant, on a 64-bit accumulator. */
module SWSP177 {
  import opened Words
  import opened Provider

  /** What the rounds do to the low word. */
  function Rounds(word: bv32, cryptoKey: bv32, n: nat): bv32 {
    if n == 0 then word else Xor(RotRight1(Rounds(word, cryptoKey, n - 1)), cryptoKey)
  }

  /** One round on the accumulator; the product of the low bit with 2^31 is that
      bit moved to place 31. */
  function WideRound(a: bv64, cryptoKey: bv64): bv64 {
    WideXor(WideTurn(a), cryptoKey)
  }

  function WideTurn(a: bv64): bv64 { (a >> 1) | ((a & 1) << 31) }

  function WideXor(a: bv64, b: bv64): bv64 { a ^ b }

  function Wide(w: bv32): bv64 { w as bv64 }

  function Narrow(a: bv64): bv32 { (a & 0xFFFF_FFFF) as bv32 }

  lemma TurnStaysNarrow(w: bv32)
    ensures WideTurn(Wide(w)) == Wide(RotRight1(w))
    ensures Narrow(Wide(w)) == w
  {
  }

  lemma XorStaysNarrow(w: bv32, k: bv32)
    ensures WideXor(Wide(w), Wide(k)) == Wide(Xor(w, k))
  {
  }

  function KeyWord(seed: seq<bv8>, cryptoKey: bv32): bv32
    requires |seed| == 4
  {
    Rounds(WordOf(seed), cryptoKey, 35)
  }

  method GenerateKey(seed: seq<bv8>, keyLength: int, cryptoKey: bv32) returns (key: Key<bv8>)
    ensures key == if |seed| != 4 || keyLength != 4 then NoKey else KeyBytes(BytesOf(KeyWord(seed, cryptoKey)))
  {
    if |seed| != 4 || keyLength != 4 {
      return NoKey;
    }
    hide Word, Byte0, Byte1, Byte2, Byte3, WideTurn, WideXor, Wide, Narrow, Xor, RotRight1;
    var seedA := Wide(WordOf(seed));
    for i := 0 to 35
      invariant seedA == Wide(Rounds(WordOf(seed), cryptoKey, i))
    {
      ghost var word := Rounds(WordOf(seed), cryptoKey, i);
      TurnStaysNarrow(word);
      XorStaysNarrow(RotRight1(word), cryptoKey);
      seedA := WideRound(seedA, Wide(cryptoKey));
    }
    TurnStaysNarrow(KeyWord(seed, cryptoKey));
    var seedKey := Narrow(seedA);
    key := KeyBytes(BytesOf(seedKey));
  }

  /** The key constant drops out of the difference of two runs. */
  lemma {:induction false} DifferenceOfRounds(s: bv32, t: bv32, k: bv32, n: nat)
    ensures Xor(Rounds(s, k, n), Rounds(t, k, n)) == RotRight(Xor(s, t), n)
  {
    hide Xor, RotRight1;
    if n != 0 {
      DifferenceOfRounds(s, t, k, n - 1);
      var a, b := Rounds(s, k, n - 1), Rounds(t, k, n - 1);
      XorAssociates(RotRight1(a), k, Xor(RotRight1(b), k));
      XorCommutes(k, Xor(RotRight1(b), k));
      XorInverts(RotRight1(b), k);
      XorRotOne(a, b);
    }
  }

  /** Two keys differ by the difference of their seeds turned right by three,
      whatever the key constant. */
  lemma KeysDifferByThreeTurns(s: seq<bv8>, t: seq<bv8>, k: bv32)
    requires |s| == 4 && |t| == 4
    ensures Xor(KeyWord(s, k), KeyWord(t, k)) == RotRight(Xor(WordOf(s), WordOf(t)), 3)
  {
    hide Xor, RotRight, Rounds, Word;
    DifferenceOfRounds(WordOf(s), WordOf(t), k, 35);
    RotRightMod32(Xor(WordOf(s), WordOf(t)), 35);
  }

  lemma XorZero(a: bv32, b: bv32)
    ensures Xor(a, b) == 0 <==> a == b
  {
  }

  /** So different seeds never share a key. */
  lemma KeysAreInjective(s: seq<bv8>, t: seq<bv8>, k: bv32)
    requires |s| == 4 && |t| == 4 && KeyWord(s, k) == KeyWord(t, k)
    ensures s == t
  {
    hide Xor, RotRight, RotLeft, Rounds, Word, Byte0, Byte1, Byte2, Byte3;
    var d := Xor(WordOf(s), WordOf(t));
    KeysDifferByThreeTurns(s, t, k);
    XorZero(KeyWord(s, k), KeyWord(t, k));
    RotInverse(d, 3);
    LeftRotationOfZero();
    XorZero(WordOf(s), WordOf(t));
    BytesOfWord(s[0], s[1], s[2], s[3]);
    BytesOfWord(t[0], t[1], t[2], t[3]);
  }

  lemma LeftRotationOfZero()
    ensures RotLeft(0, 3) == 0
  {
    ZeroTurnsLeft();
    assert RotLeft(0, 1) == RotLeft1(RotLeft(0, 0));
    assert RotLeft(0, 2) == RotLeft1(RotLeft(0, 1));
  }

  lemma ZeroTurnsLeft()
    ensures RotLeft1(0) == 0
  {
  }

  // ----- the key in closed form -----

  /** The exclusive-or of the first `n` rotations of a word. */
  function Turns(k: bv32, n: nat): bv32 {
    if n == 0 then 0 else Xor(Turns(k, n - 1), RotRight(k, n - 1))
  }

  lemma {:induction false} TurnsOnce(k: bv32, n: nat)
    ensures Xor(RotRight1(Turns(k, n)), k) == Turns(k, n + 1)
  {
    hide Xor, RotRight1;
    assert RotRight(k, 0) == k;
    if n == 0 {
      ZeroTurns();
      assert Turns(k, 1) == Xor(Turns(k, 0), k);
    } else {
      var t, r := Turns(k, n - 1), RotRight(k, n - 1);
      TurnsOnce(k, n - 1);
      XorRotOne(t, r);
      XorAssociates(RotRight1(t), RotRight1(r), k);
      XorCommutes(RotRight1(r), k);
      XorAssociates(RotRight1(t), k, RotRight1(r));
    }
  }

  lemma ZeroTurns()
    ensures RotRight1(0) == 0
  {
  }

  lemma {:induction false} RoundsSplit(word: bv32, k: bv32, n: nat)
    ensures Rounds(word, k, n) == Xor(RotRight(word, n), Turns(k, n))
  {
    hide Xor, RotRight1;
    if n == 0 {
      XorWithZero(word);
    } else {
      RoundsSplit(word, k, n - 1);
      XorRotOne(RotRight(word, n - 1), Turns(k, n - 1));
      XorAssociates(RotRight(word, n), RotRight1(Turns(k, n - 1)), k);
      TurnsOnce(k, n - 1);
    }
  }

  lemma XorWithZero(a: bv32)
    ensures Xor(a, 0) == a && Xor(a, a) == 0
  {
  }

  lemma LowOfXor(a: bv32, b: bv32)
    ensures Low(Xor(a, b)) == (Low(a) + Low(b)) % 2
  {
  }

  lemma {:induction false} LowOfTurns(k: bv32, n: nat)
    requires n <= 32
    ensures Low(Turns(k, n)) == OnesBelow(k, n) % 2
  {
    hide Xor, RotRight1, Half;
    if n == 0 {
      hide RotRight;
      MeetsNone();
    } else {
      hide Low, RotRight, ShiftRight;
      LowOfTurns(k, n - 1);
      LowOfXor(Turns(k, n - 1), RotRight(k, n - 1));
      LowOfRotation(k, n - 1);
    }
  }

  /** Only the empty and the full word look the same after a turn. */
  lemma SteadyWords(t: bv32)
    requires RotRight1(t) == t
    ensures t == if Low(t) == 1 then 0xFFFF_FFFF else 0
  {
  }

  /** All 32 rotations of a word cancel out, or leave all ones when it has an odd
      number of one bits. */
  lemma FullTurns(k: bv32)
    ensures Turns(k, 32) == if Ones(k) % 2 == 1 then 0xFFFF_FFFF else 0
  {
    hide Xor, RotRight1, RotRight, Low, OnesBelow;
    var t := Turns(k, 32);
    TurnsOnce(k, 32);
    RotRightBy32(k);
    assert Turns(k, 33) == Xor(t, RotRight(k, 32));
    XorInverts(RotRight1(t), k);
    XorInverts(t, k);
    SteadyWords(t);
    LowOfTurns(k, 32);
  }

  /** The key word: the seed turned by three, the key constant in its first three
      rotations, and every bit flipped when the constant has an odd number of one
      bits. */
  lemma KeyInClosedForm(seed: seq<bv8>, k: bv32)
    requires |seed| == 4
    ensures KeyWord(seed, k)
         == Xor(RotRight(WordOf(seed), 3),
                Xor(Xor(Xor(if Ones(k) % 2 == 1 then 0xFFFF_FFFF else 0, k), RotRight(k, 1)), RotRight(k, 2)))
  {
    hide Xor, RotRight, Rounds, Word, Ones;
    RoundsSplit(WordOf(seed), k, 35);
    RotRightMod32(WordOf(seed), 35);
    FullTurns(k);
    RotRightMod32(k, 32);
    RotRightMod32(k, 33);
    RotRightMod32(k, 34);
    NoTurn(k);
    assert Turns(k, 33) == Xor(Turns(k, 32), k);
    assert Turns(k, 34) == Xor(Turns(k, 33), RotRight(k, 1));
    assert Turns(k, 35) == Xor(Turns(k, 34), RotRight(k, 2));
  }

  lemma NoTurn(k: bv32)
    ensures RotRight(k, 0) == k
  {
  }
}
