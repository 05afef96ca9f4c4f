/** The 64-bit block cipher that two providers implement independently: salt
    expansion, a feedback shift register for the round keys, and four Feistel
    half-rounds.  This module is the cipher on words; the providers are proved
    to compute it. */
module Cipher {
  import opened Words

  // ----- rotating a byte string by one bit -----

  function LowBit(b: bv8): bv8 { b & 1 }

  /** `b` moved right by one bit, with the bit that leaves its neighbour. */
  function ShiftIn(b: bv8, neighbour: bv8): bv8 {
    (b >> 1) | (neighbour << 7)
  }

  function Before(i: nat, n: nat): nat
    requires i < n
  {
    if i == 0 then n - 1 else i - 1
  }

  /** One right rotation of the whole string, read as one long bit field. */
  function RotBytes(s: seq<bv8>): (r: seq<bv8>)
    ensures |r| == |s|
  {
    seq(|s|, i requires 0 <= i < |s| => ShiftIn(s[i], s[Before(i, |s|)]))
  }

  lemma RotBytesAt(s: seq<bv8>, i: nat)
    requires i < |s|
    ensures RotBytes(s)[i] == ShiftIn(s[i], s[Before(i, |s|)])
  {
  }

  function RotBytesBy(s: seq<bv8>, n: nat): (r: seq<bv8>)
    ensures |r| == |s|
  {
    if n == 0 then s else RotBytes(RotBytesBy(s, n - 1))
  }

  lemma TurnFourBytes(a: bv8, b: bv8, c: bv8, d: bv8)
    ensures Word(ShiftIn(a, d), ShiftIn(b, a), ShiftIn(c, b), ShiftIn(d, c)) == RotRight1(Word(a, b, c, d))
  {
    hide *;
    var w := Word(a, b, c, d);
    BytesOfWord(a, b, c, d);
    TurnHighBytes(w);
    TurnLowBytes(w);
    WordOfBytes(RotRight1(w));
  }

  lemma TurnHighBytes(w: bv32)
    ensures Byte0(RotRight1(w)) == ShiftIn(Byte0(w), Byte3(w))
    ensures Byte1(RotRight1(w)) == ShiftIn(Byte1(w), Byte0(w))
  {
  }

  lemma TurnLowBytes(w: bv32)
    ensures Byte2(RotRight1(w)) == ShiftIn(Byte2(w), Byte1(w))
    ensures Byte3(RotRight1(w)) == ShiftIn(Byte3(w), Byte2(w))
  {
  }

  /** Rotating the byte array is rotating the big-endian word. */
  lemma {:induction false} ByteRotationIsWordRotation(s: seq<bv8>, n: nat)
    requires |s| == 4
    ensures WordOf(RotBytesBy(s, n)) == RotRight(WordOf(s), n)
  {
    hide Word, ShiftIn, RotRight1;
    if n != 0 {
      ByteRotationIsWordRotation(s, n - 1);
      var t := RotBytesBy(s, n - 1);
      TurnFourBytes(t[0], t[1], t[2], t[3]);
    }
  }

  // ----- salt expansion -----

  function Transpose(w: bv32): bv32 {
    Word(Byte1(w), Byte3(w), Byte0(w), Byte2(w))
  }

  function LowNibble(b: bv8): nat { Nat8(b & 0x0F) }

  function Expand(w: bv32): bv32 {
    Xor(RotRight(Transpose(w), LowNibble(Byte2(w)) + 1), RotRight(w, LowNibble(Byte3(w)) + 1))
  }

  lemma FourBitsAreARemainder(b: bv8)
    ensures Nat8(b & 0x0F) == Nat8(b) % 16
  {
  }

  lemma ThreeBitsAreARemainder(b: bv8)
    ensures Nat8(b & 7) == Nat8(b) % 8
  {
  }

  lemma TwoBitsAreARemainder(b: bv8)
    ensures Nat8(b & 3) == Nat8(b) % 4
  {
  }

  lemma LowBytesOfValue(w: bv32)
    ensures Value(w) % 16 == Nat8(Byte3(w)) % 16 && Value(w) / 256 % 16 == Nat8(Byte2(w)) % 16
  {
    hide Byte0, Byte1, Byte2, Byte3, Nat8;
    var a, b, c, e := Nat8(Byte0(w)), Nat8(Byte1(w)), Nat8(Byte2(w)), Nat8(Byte3(w));
    assert Value(w) == (a * 0x1_0000 + b * 0x100 + c) * 256 + e;
    LowDigits(Value(w), a * 0x1_0000 + b * 0x100 + c, e, a * 0x1000 + b * 0x10, c);
  }

  lemma LowDigits(v: nat, q: nat, e: nat, p: nat, c: nat)
    requires v == q * 256 + e && e < 256 && q == p * 16 + c
    ensures v % 16 == e % 16 && v / 256 % 16 == c % 16
  {
    assert v / 256 == q;
  }

  /** In arithmetic: the word with its bytes transposed turns by the second lowest
      byte modulo 16, plus one, and the word itself by its value modulo 16, plus
      one. */
  lemma ExpandIs(w: bv32)
    ensures Expand(w) == Xor(RotRight(Transpose(w), Value(w) / 256 % 16 + 1), RotRight(w, Value(w) % 16 + 1))
    ensures Value(Transpose(w)) == Value(w) / 0x1_0000 % 256 * 0x100_0000 + Value(w) % 256 * 0x1_0000
                                 + Value(w) / 0x100_0000 * 256 + Value(w) / 256 % 256
  {
    FourBitsAreARemainder(Byte2(w));
    FourBitsAreARemainder(Byte3(w));
    LowBytesOfValue(w);
    BytesOfValue(w);
    hide Byte0, Byte1, Byte2, Byte3, Word, Xor, RotRight, Nat8, Value;
    ValueOfWord(Byte1(w), Byte3(w), Byte0(w), Byte2(w));
  }

  lemma BytesOfValue(w: bv32)
    ensures Nat8(Byte0(w)) == Value(w) / 0x100_0000 && Nat8(Byte1(w)) == Value(w) / 0x1_0000 % 256
    ensures Nat8(Byte2(w)) == Value(w) / 256 % 256 && Nat8(Byte3(w)) == Value(w) % 256
  {
    hide Byte0, Byte1, Byte2, Byte3, Nat8;
    var a, b, c, e := Nat8(Byte0(w)), Nat8(Byte1(w)), Nat8(Byte2(w)), Nat8(Byte3(w));
    assert Value(w) == (a * 256 + b) * 0x1_0000 + (c * 256 + e);
    HalvesAreUnique(Value(w), a * 256 + b, c * 256 + e);
    assert Value(w) / 0x100_0000 == Value(w) / 0x1_0000 / 256;
    assert Value(w) / 256 == (a * 256 + b) * 256 + c;
  }

  // ----- the feedback shift register -----

  function Feedback(s: seq<bv8>): bv8
    requires |s| == 8
  {
    ((s[0] >> 3) & 1) ^ (s[1] & 1) ^ ((s[2] >> 1) & 1) ^ ((s[3] >> 7) & 1)
    ^ ((s[4] >> 5) & 1) ^ ((s[5] >> 2) & 1) ^ ((s[6] >> 6) & 1) ^ ((s[7] >> 4) & 1)
  }

  /** The feedback bit replaces bit 7 of the last byte. */
  function WithFeedback(last: bv8, feedback: bv8): bv8 {
    (last & 0x7F) | (feedback << 7)
  }

  function LfsrStep(s: seq<bv8>): (r: seq<bv8>)
    requires |s| == 8
    ensures |r| == 8
  {
    RotBytes(s[7 := WithFeedback(s[7], Feedback(s))])
  }

  function Lfsr(s: seq<bv8>, n: nat): (r: seq<bv8>)
    requires |s| == 8
    ensures |r| == 8
  {
    if n == 0 then s else LfsrStep(Lfsr(s, n - 1))
  }

  // ----- the Feistel network -----

  datatype Block = Block(left: bv32, right: bv32)

  function LevelByte(b: Block, level: nat): bv8
    requires level < 8
  {
    if level < 4 then BytesOf(b.left)[level] else BytesOf(b.right)[level - 4]
  }

  lemma LevelByteIndexes(b: Block, level: nat)
    requires level < 8
    ensures LevelByte(b, level) == BlockBytes(b)[level]
  {
    hide BytesOf;
  }

  function Turns(b: bv8): (n: nat)
    ensures n == Nat8(b) % 4 + 1
  {
    TwoBitsAreARemainder(b);
    Nat8(b & 3) + 1
  }

  function SwapBytes(w: bv32): bv32 {
    Word(Byte3(w), Byte2(w), Byte1(w), Byte0(w))
  }

  /** Addition modulo 2^32 of two byte strings in little-endian order. */
  function AddLittle(w: bv32, k: bv32): bv32 {
    SwapBytes(Sum(SwapBytes(w), SwapBytes(k)))
  }

  function HalfRound(b: Block, level: nat, key: bv32): Block
    requires level < 8
  {
    Block(AddLittle(RotRight(Xor(b.left, b.right), Turns(LevelByte(b, level))), key), b.left)
  }

  function Round(b: Block, level: nat, keyA: bv32, keyB: bv32): Block
    requires level < 8
  {
    HalfRound(HalfRound(b, level, keyA), level, keyB)
  }

  // ----- the whole cipher -----

  function PermuteIn(seed: seq<bv8>): (p: seq<bv8>)
    requires |seed| == 8
    ensures |p| == 8
  {
    [seed[7], seed[4], seed[3], seed[6], seed[5], seed[1], seed[0], seed[2]]
  }

  function PermuteOut(ws: seq<bv8>): (key: seq<bv8>)
    requires |ws| == 8
    ensures |key| == 8
  {
    [ws[3], ws[5], ws[6], ws[1], ws[0], ws[7], ws[4], ws[2]]
  }

  /** How often the shift register steps: the permuted seed decides. */
  function LfsrCount(p: seq<bv8>, level: nat): (n: nat)
    requires |p| == 8 && level < 8
    ensures n == Nat8(p[level]) % 8 + 2
  {
    ThreeBitsAreARemainder(p[level]);
    Nat8(p[level] & 7) + 2
  }

  function RoundKeys(salt: seq<bv8>, count: nat): (k: seq<bv8>)
    requires |salt| == 8
    ensures |k| == 8
  {
    Lfsr(BytesOf(Expand(WordOf(salt[..4]))) + BytesOf(Expand(WordOf(salt[4..]))), count)
  }

  function BlockOf(p: seq<bv8>): Block
    requires |p| == 8
  {
    Block(WordOf(p[..4]), WordOf(p[4..]))
  }

  function BlockBytes(b: Block): (p: seq<bv8>)
    ensures |p| == 8
  {
    BytesOf(b.left) + BytesOf(b.right)
  }

  function TwoRounds(b: Block, level: nat, keys: seq<bv8>): Block
    requires level < 8 && |keys| == 8
  {
    var keyA, keyB := WordOf(keys[..4]), WordOf(keys[4..]);
    Round(Round(b, level, keyA, keyB), level, keyA, keyB)
  }

  function CipherKey(seed: seq<bv8>, salt: seq<bv8>, level: nat): (key: seq<bv8>)
    requires |seed| == 8 && |salt| == 8 && level < 8
    ensures |key| == 8
  {
    var p := PermuteIn(seed);
    PermuteOut(BlockBytes(TwoRounds(BlockOf(p), level, RoundKeys(salt, LfsrCount(p, level)))))
  }
}
