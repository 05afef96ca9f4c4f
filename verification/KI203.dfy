/** The KI203 provider in its two shipped forms, the condensed form kept beside
    it for reference, and the exact roots for which the condensed form agrees. */
module KI203 {
  import opened Words
  import opened Provider

  function SeedWord(seed: seq<bv8>): bv32
    requires |seed| == 4
  {
    Word(seed[1], seed[3], seed[0], seed[2])
  }

  /** The bytes of the result word in the order of the key. */
  function KeyOf(val: bv32): (key: seq<bv8>)
    ensures |key| == 4
  {
    [Byte3(val), Byte1(val), Byte0(val), Byte2(val)]
  }

  function Mixed(word: bv32, root: bv32): bv32 {
    RotRight(Xor(RotLeft(word, 3), root), Ones(root))
  }

  function OriginalKey(seed: seq<bv8>, root: bv32): (key: seq<bv8>)
    requires |seed| == 4
    ensures |key| == 4
  {
    KeyOf(Mixed(SeedWord(seed), root))
  }

  /** The Python provider: closed-form rotations. */
  method GenerateKeyClosed(seed: seq<bv8>, keyLength: int, root: bv32) returns (key: Key<bv8>)
    ensures key == if |seed| != 4 || keyLength != 4 then NoKey else KeyBytes(OriginalKey(seed, root))
  {
    if |seed| != 4 || keyLength != 4 {
      return NoKey;
    }
    hide Word, Byte0, Byte1, Byte2, Byte3, RotateLeftClosed, RotateRightClosed, Xor, OnesBelow;
    var ones := Ones(root);
    var val := SeedWord(seed);
    ClosedFormsRefineLoops(val, 3);
    val := RotateLeftClosed(val, 3);
    val := Xor(val, root);
    ClosedFormsRefineLoops(val, ones);
    val := RotateRightClosed(val, ones);
    var outKey := new bv8[4];
    outKey[0] := Byte3(val);
    outKey[1] := Byte1(val);
    outKey[2] := Byte0(val);
    outKey[3] := Byte2(val);
    key := KeyBytes(outKey[..]);
  }

  /** The C# provider: bit-by-bit rotations and a counting loop. */
  method GenerateKeyLoops(seed: seq<bv8>, outLength: int, root: bv32) returns (key: Key<bv8>)
    ensures key == if |seed| != 4 || outLength != 4 then NoKey else KeyBytes(OriginalKey(seed, root))
  {
    if |seed| != 4 || outLength != 4 {
      return NoKey;
    }
    hide Word, Byte0, Byte1, Byte2, Byte3, Xor, Ones;
    var ones := CountOnes(root);
    var val := SeedWord(seed);
    val := RotateLeftLoop(val, 3);
    val := Xor(val, root);
    val := RotateRightLoop(val, ones);
    var outKey := new bv8[4];
    outKey[0] := Byte3(val);
    outKey[1] := Byte1(val);
    outKey[2] := Byte0(val);
    outKey[3] := Byte2(val);
    key := KeyBytes(outKey[..]);
  }

  // ----- the condensed form -----

  /** The low nibble of one byte above the high nibble of another. */
  function Nibbles(low: bv8, high: bv8): bv8 {
    ((low & 0xF) << 4) | (high >> 4)
  }

  function CondensedKey(input: seq<bv8>, root: seq<bv8>): (key: seq<bv8>)
    requires |input| == 4 && |root| == 4
    ensures |key| == 4
  {
    [XorByte(Nibbles(input[3], input[0]), root[0]), XorByte(Nibbles(input[2], input[1]), root[1]),
     XorByte(Nibbles(input[0], input[2]), root[2]), XorByte(Nibbles(input[1], input[3]), root[3])]
  }

  method CondensedGenerateKey(input: seq<bv8>, root: seq<bv8>) returns (result: array<bv8>)
    requires |input| == 4 && |root| == 4
    ensures fresh(result) && result[..] == CondensedKey(input, root)
  {
    hide Nibbles, XorByte;
    result := new bv8[] [Nibbles(input[3], input[0]), Nibbles(input[2], input[1]),
                         Nibbles(input[0], input[2]), Nibbles(input[1], input[3])];
    ghost var start := result[..];
    for i := 0 to |root|
      invariant result.Length == 4
      invariant forall k | 0 <= k < i :: result[k] == XorByte(start[k], root[k])
      invariant forall k | i <= k < 4 :: result[k] == start[k]
    {
      result[i] := XorByte(result[i], root[i]);
    }
  }

  /** The byte transposition that opens the conversion. */
  function Prekey(val: bv32): bv32 {
    (0xFF00_0000 & (val << 16)) | (0x00FF_0000 & val) | (0x0000_FF00 & (val << 8)) | (0x0000_00FF & (val >> 24))
  }

  function ConvertCondensedKeyToOriginal(val: bv32): bv32 {
    RotLeft(Prekey(val), Ones(Prekey(val)))
  }

  // ----- the conversion keeps the population count -----

  function Piece(x: bv32, mask: bv32): bv32 { x & mask }

  lemma SplitInBytes(x: bv32)
    ensures Or(Or(Piece(x, 0xFF00_0000), Piece(x, 0x00FF_0000)), Or(Piece(x, 0xFF00), Piece(x, 0xFF))) == x
    ensures !Meets(Piece(x, 0xFF00_0000), Piece(x, 0x00FF_0000)) && !Meets(Piece(x, 0xFF00), Piece(x, 0xFF))
    ensures !Meets(Or(Piece(x, 0xFF00_0000), Piece(x, 0x00FF_0000)), Or(Piece(x, 0xFF00), Piece(x, 0xFF)))
  {
  }

  lemma OnesByBytes(x: bv32)
    ensures Ones(x) == Ones(Piece(x, 0xFF00_0000)) + Ones(Piece(x, 0x00FF_0000))
                     + Ones(Piece(x, 0xFF00)) + Ones(Piece(x, 0xFF))
  {
    hide Or, Meets, Piece, OnesBelow;
    var a, b, c, d := Piece(x, 0xFF00_0000), Piece(x, 0x00FF_0000), Piece(x, 0xFF00), Piece(x, 0xFF);
    SplitInBytes(x);
    DisjointOnesBelow(a, b, 32);
    DisjointOnesBelow(c, d, 32);
    DisjointOnesBelow(Or(a, b), Or(c, d), 32);
  }

  lemma PrekeyMovesBytes(x: bv32)
    ensures Piece(Prekey(x), 0xFF00_0000) == RotRight(Piece(x, 0xFF00), 16)
    ensures Piece(Prekey(x), 0x00FF_0000) == Piece(x, 0x00FF_0000)
    ensures Piece(Prekey(x), 0xFF00) == RotRight(Piece(x, 0xFF), 24)
    ensures Piece(Prekey(x), 0xFF) == RotRight(Piece(x, 0xFF00_0000), 24)
  {
    hide RotRight;
    RotRightBy16(Piece(x, 0xFF00));
    RotRightBy24(Piece(x, 0xFF));
    RotRightBy24(Piece(x, 0xFF00_0000));
    MovedBytes(x);
  }

  lemma RotRightBy24(x: bv32)
    ensures RotRight(x, 24) == (x >> 24) | (x << 8)
  {
    hide RotRight;
    RotRightBy16(x);
    RotRightBy8(RotRight(x, 16));
    RotRightAdd(x, 16, 8);
  }

  lemma MovedBytes(x: bv32)
    ensures Piece(Prekey(x), 0xFF00_0000) == (Piece(x, 0xFF00) >> 16) | (Piece(x, 0xFF00) << 16)
    ensures Piece(Prekey(x), 0x00FF_0000) == Piece(x, 0x00FF_0000)
    ensures Piece(Prekey(x), 0xFF00) == (Piece(x, 0xFF) >> 24) | (Piece(x, 0xFF) << 8)
    ensures Piece(Prekey(x), 0xFF) == (Piece(x, 0xFF00_0000) >> 24) | (Piece(x, 0xFF00_0000) << 8)
  {
  }

  /** Converting a root keeps the number of its one bits. */
  lemma ConversionKeepsOnes(val: bv32)
    ensures Ones(Prekey(val)) == Ones(val)
    ensures Ones(ConvertCondensedKeyToOriginal(val)) == Ones(val)
  {
    hide Piece, Prekey, Ones, RotRight, RotLeft;
    OnesByBytes(val);
    OnesByBytes(Prekey(val));
    PrekeyMovesBytes(val);
    RotationKeepsOnes(Piece(val, 0xFF00), 16);
    RotationKeepsOnes(Piece(val, 0xFF), 24);
    RotationKeepsOnes(Piece(val, 0xFF00_0000), 24);
    LeftRotationKeepsOnes(Prekey(val), Ones(Prekey(val)));
  }

  lemma LeftRotationKeepsOnes(x: bv32, n: nat)
    ensures Ones(RotLeft(x, n)) == Ones(x)
  {
    hide Ones, RotRight, RotLeft;
    RotInverse(x, n);
    RotationKeepsOnes(RotLeft(x, n), n);
  }

  // ----- when the two forms agree -----

  /** What the original form does to the seed under a converted root. */
  lemma MixedUnderConvertedRoot(word: bv32, val: bv32)
    ensures Mixed(word, ConvertCondensedKeyToOriginal(val))
         == Xor(RotRight(word, 29 + Ones(val)), Prekey(val))
  {
    hide Ones, RotRight, RotLeft, Prekey, Xor;
    var n := Ones(val);
    ConversionKeepsOnes(val);
    RotLeftAsRight(word, 3);
    RotRightAdd(word, 29, n);
    RotRightXor(RotLeft(word, 3), RotLeft(Prekey(val), n), n);
    RotInverse(Prekey(val), n);
  }

  lemma RotRightBy12(x: bv32)
    ensures RotRight(x, 12) == (x >> 12) | (x << 20)
  {
    hide RotRight;
    RotRightBy8(x);
    RotRightBy4(RotRight(x, 8));
    RotRightAdd(x, 8, 4);
  }

  lemma CondensedBytes(a: bv8, b: bv8, c: bv8, d: bv8)
    ensures var w := Word(b, d, a, c);
      var t := (w >> 12) | (w << 20);
      && Byte3(t) == Nibbles(d, a) && Byte1(t) == Nibbles(c, b)
      && Byte0(t) == Nibbles(a, c) && Byte2(t) == Nibbles(b, d)
  {
  }

  lemma PrekeyBytes(a: bv8, b: bv8, c: bv8, d: bv8)
    ensures var k := Prekey(Word(a, b, c, d));
      Byte3(k) == a && Byte1(k) == b && Byte0(k) == c && Byte2(k) == d
  {
  }

  lemma XorBytewise(x: bv32, y: bv32)
    ensures Byte0(Xor(x, y)) == XorByte(Byte0(x), Byte0(y))
    ensures Byte1(Xor(x, y)) == XorByte(Byte1(x), Byte1(y))
  {
  }

  lemma XorLowBytewise(x: bv32, y: bv32)
    ensures Byte2(Xor(x, y)) == XorByte(Byte2(x), Byte2(y))
    ensures Byte3(Xor(x, y)) == XorByte(Byte3(x), Byte3(y))
  {
  }

  /** The condensed form always rotates by twelve. */
  lemma CondensedIsTwelve(seed: seq<bv8>, root: seq<bv8>)
    requires |seed| == 4 && |root| == 4
    ensures CondensedKey(seed, root) == KeyOf(Xor(RotRight(SeedWord(seed), 12), Prekey(WordOf(root))))
  {
    hide Word, Byte0, Byte1, Byte2, Byte3, Nibbles, XorByte, Xor, RotRight, Prekey;
    RotRightBy12(SeedWord(seed));
    CondensedBytes(seed[0], seed[1], seed[2], seed[3]);
    PrekeyBytes(root[0], root[1], root[2], root[3]);
    XorBytewise(RotRight(SeedWord(seed), 12), Prekey(WordOf(root)));
    XorLowBytewise(RotRight(SeedWord(seed), 12), Prekey(WordOf(root)));
  }

  lemma {:induction false} AtMostAllOnes(x: bv32, n: nat)
    ensures OnesBelow(x, n) <= n
  {
    if n != 0 {
      AtMostAllOnes(x, n - 1);
    }
  }

  lemma KeyOfIsInjective(x: bv32, y: bv32)
    requires KeyOf(x) == KeyOf(y)
    ensures x == y
  {
    hide Word, Byte0, Byte1, Byte2, Byte3;
    assert KeyOf(x)[0] == KeyOf(y)[0] && KeyOf(x)[1] == KeyOf(y)[1];
    assert KeyOf(x)[2] == KeyOf(y)[2] && KeyOf(x)[3] == KeyOf(y)[3];
    WordOfBytes(x);
    WordOfBytes(y);
  }

  lemma XorIsInjective(x: bv32, y: bv32, k: bv32)
    requires Xor(x, k) == Xor(y, k)
    ensures x == y
  {
    XorInverts(x, k);
    XorInverts(y, k);
  }

  ghost predicate FormsAgree(root: seq<bv8>)
    requires |root| == 4
  {
    forall seed | |seed| == 4
      :: CondensedKey(seed, root) == OriginalKey(seed, ConvertCondensedKeyToOriginal(WordOf(root)))
  }

  function SeedOfWord(w: bv32): (seed: seq<bv8>)
    ensures |seed| == 4
  {
    [Byte2(w), Byte0(w), Byte3(w), Byte1(w)]
  }

  /** The condensed form under a root equals the original form under the
      converted root, for every seed, exactly when the root has 15 one bits. */
  lemma FormsAgreeExactly(root: seq<bv8>)
    requires |root| == 4
    ensures FormsAgree(root) <==> Ones(WordOf(root)) == 15
  {
    hide WordOf, CondensedKey, ConvertCondensedKeyToOriginal, KeyOf, Mixed, Xor, RotRight, RotLeft, Prekey, SeedWord;
    hide OnesBelow;
    var val := WordOf(root);
    var n := Ones(val);
    AtMostAllOnes(val, 32);
    if n == 15 {
      forall seed | |seed| == 4
        ensures CondensedKey(seed, root) == OriginalKey(seed, ConvertCondensedKeyToOriginal(val))
      {
        CondensedIsTwelve(seed, root);
        MixedUnderConvertedRoot(SeedWord(seed), val);
        RotRightMod32(SeedWord(seed), 44);
      }
    } else {
      var word := RotLeft(1, 12);
      var seed := SeedOfWord(word);
      SeedWordRoundTrip(word);
      if CondensedKey(seed, root) == OriginalKey(seed, ConvertCondensedKeyToOriginal(val)) {
        CondensedIsTwelve(seed, root);
        MixedUnderConvertedRoot(word, val);
        KeyOfIsInjective(Xor(RotRight(word, 12), Prekey(val)), Xor(RotRight(word, 29 + n), Prekey(val)));
        XorIsInjective(RotRight(word, 12), RotRight(word, 29 + n), Prekey(val));
        RotInverse(1, 12);
        RotRightAdd(word, 12, 17 + n);
        RotationMovesOne(17 + n);
        assert false;
      }
    }
  }

  /** The root FFFFFFFF has 32 one bits, so the two forms disagree on it. */
  lemma AllOnesRootDisagrees()
    ensures var root: seq<bv8> := [0xFF, 0xFF, 0xFF, 0xFF];
      Ones(WordOf(root)) == 32 && !FormsAgree(root)
  {
    hide Ones, FormsAgree;
    var root: seq<bv8> := [0xFF, 0xFF, 0xFF, 0xFF];
    AllOnesWord();
    AllOnes(32);
    OnesAre(0xFFFF_FFFF);
    FormsAgreeExactly(root);
  }

  lemma AllOnesWord()
    ensures Word(0xFF, 0xFF, 0xFF, 0xFF) == 0xFFFF_FFFF
  {
  }

  lemma OnesAre(x: bv32)
    ensures Ones(x) == OnesBelow(x, 32)
  {
  }

  lemma {:induction false} AllOnes(n: nat)
    requires n <= 32
    ensures OnesBelow(0xFFFF_FFFF, n) == n
  {
    if n != 0 {
      AllOnes(n - 1);
      ShiftRightMeets(0xFFFF_FFFF, 1, n - 1);
      OneBit(n - 1);
      EveryMaskMeets(ShiftLeft(1, n - 1));
    }
  }

  lemma EveryMaskMeets(mask: bv32)
    ensures Meets(0xFFFF_FFFF, mask) <==> mask != 0
  {
  }

  lemma SeedWordRoundTrip(w: bv32)
    ensures SeedWord(SeedOfWord(w)) == w
  {
    hide Word, Byte0, Byte1, Byte2, Byte3;
    WordOfBytes(w);
  }
}
