/** When different seeds keep different keys.

    At internal levels up to 3 each half-round can be undone, because the byte
    that chooses the rotation survives in the new block.  A step of the shift
    register forgets exactly one bit. */
module CipherInjectivity {
  import opened Words
  import opened Cipher

  // ----- levels 0 to 3: every half-round has an inverse -----

  function SubtractLittle(w: bv32, k: bv32): bv32 {
    SwapBytes(Difference(SwapBytes(w), SwapBytes(k)))
  }

  function UndoHalfRound(b: Block, level: nat, key: bv32): Block
    requires level < 4
  {
    var left := b.right;
    var turns := Turns(BytesOf(left)[level]);
    Block(left, Xor(RotLeft(SubtractLittle(b.left, key), turns), left))
  }

  lemma SwapTwice(w: bv32)
    ensures SwapBytes(SwapBytes(w)) == w
  {
    hide Word, Byte0, Byte1, Byte2, Byte3;
    BytesOfWord(Byte3(w), Byte2(w), Byte1(w), Byte0(w));
    WordOfBytes(w);
  }

  lemma AddLittleInverts(w: bv32, k: bv32)
    ensures SubtractLittle(AddLittle(w, k), k) == w
  {
    hide SwapBytes, Sum, Difference;
    SwapTwice(Sum(SwapBytes(w), SwapBytes(k)));
    AddInverts(SwapBytes(w), SwapBytes(k));
    SwapTwice(w);
  }

  lemma XorSwap(a: bv32, b: bv32)
    ensures Xor(Xor(a, b), a) == b
  {
  }

  lemma HalfRoundInverts(b: Block, level: nat, key: bv32)
    requires level < 4
    ensures UndoHalfRound(HalfRound(b, level, key), level, key) == b
  {
    hide AddLittle, SubtractLittle, Xor, RotRight, RotLeft, Turns, BytesOf;
    var turns := Turns(BytesOf(b.left)[level]);
    var mixed := RotRight(Xor(b.left, b.right), turns);
    AddLittleInverts(mixed, key);
    RotInverse(Xor(b.left, b.right), turns);
    XorSwap(b.left, b.right);
  }

  function UndoTwoRounds(b: Block, level: nat, keys: seq<bv8>): Block
    requires level < 4 && |keys| == 8
  {
    var keyA, keyB := WordOf(keys[..4]), WordOf(keys[4..]);
    UndoHalfRound(UndoHalfRound(UndoHalfRound(UndoHalfRound(b, level, keyB), level, keyA), level, keyB), level, keyA)
  }

  lemma TwoRoundsInvert(b: Block, level: nat, keys: seq<bv8>)
    requires level < 4 && |keys| == 8
    ensures UndoTwoRounds(TwoRounds(b, level, keys), level, keys) == b
  {
    hide HalfRound, UndoHalfRound, WordOf;
    var keyA, keyB := WordOf(keys[..4]), WordOf(keys[4..]);
    var b1 := HalfRound(b, level, keyA);
    var b2 := HalfRound(b1, level, keyB);
    var b3 := HalfRound(b2, level, keyA);
    HalfRoundInverts(b, level, keyA);
    HalfRoundInverts(b1, level, keyB);
    HalfRoundInverts(b2, level, keyA);
    HalfRoundInverts(b3, level, keyB);
  }

  // ----- the permutations -----

  function UnpermuteIn(p: seq<bv8>): (seed: seq<bv8>)
    requires |p| == 8
    ensures |seed| == 8 && PermuteIn(seed) == p
  {
    [p[6], p[5], p[7], p[2], p[1], p[4], p[3], p[0]]
  }

  function UnpermuteOut(key: seq<bv8>): (ws: seq<bv8>)
    requires |key| == 8
    ensures |ws| == 8 && PermuteOut(ws) == key
  {
    [key[4], key[3], key[7], key[0], key[6], key[1], key[2], key[5]]
  }

  lemma PermutationsInvert(s: seq<bv8>)
    requires |s| == 8
    ensures UnpermuteIn(PermuteIn(s)) == s && UnpermuteOut(PermuteOut(s)) == s
  {
  }

  /** The last step of the providers does not reverse the first: together they
      return only the seeds that repeat their bytes in this pattern. */
  lemma PermutationsCancelExactly(s: seq<bv8>)
    requires |s| == 8
    ensures PermuteOut(PermuteIn(s)) == s <==> s[0] == s[2] == s[5] == s[6] && s[3] == s[4] == s[7]
  {
    var t := PermuteOut(PermuteIn(s));
    assert t == [s[6], s[1], s[0], s[4], s[7], s[2], s[5], s[3]];
    assert s == [s[0], s[1], s[2], s[3], s[4], s[5], s[6], s[7]];
  }

  lemma PermutationsMoveASeed()
    ensures var s: seq<bv8> := [0, 1, 2, 3, 4, 5, 6, 7];
      PermuteOut(PermuteIn(s)) == [6, 1, 0, 4, 7, 2, 5, 3] != s
  {
    var s: seq<bv8> := [0, 1, 2, 3, 4, 5, 6, 7];
    PermutationsCancelExactly(s);
  }

  lemma BlockRoundTrip(b: Block, p: seq<bv8>)
    requires |p| == 8
    ensures BlockOf(BlockBytes(b)) == b && BlockBytes(BlockOf(p)) == p
  {
    hide WordOf, BytesOf;
    assert BlockBytes(b)[..4] == BytesOf(b.left) && BlockBytes(b)[4..] == BytesOf(b.right);
    BytesRoundTrip(b.left, p[..4]);
    BytesRoundTrip(b.right, p[4..]);
  }

  // ----- recovering the seed -----

  /** The seed whose key this is, given how often the shift register stepped. */
  function SeedOf(key: seq<bv8>, salt: seq<bv8>, level: nat, count: nat): (seed: seq<bv8>)
    requires |key| == 8 && |salt| == 8 && level < 4
    ensures |seed| == 8
  {
    UnpermuteIn(BlockBytes(UndoTwoRounds(BlockOf(UnpermuteOut(key)), level, RoundKeys(salt, count))))
  }

  lemma SeedIsRecovered(seed: seq<bv8>, salt: seq<bv8>, level: nat)
    requires |seed| == 8 && |salt| == 8 && level < 4
    ensures SeedOf(CipherKey(seed, salt, level), salt, level, LfsrCount(PermuteIn(seed), level)) == seed
  {
    hide RoundKeys, TwoRounds, UndoTwoRounds, BlockOf, BlockBytes, PermuteIn, PermuteOut, UnpermuteIn, UnpermuteOut;
    hide LfsrCount;
    var p := PermuteIn(seed);
    var keys := RoundKeys(salt, LfsrCount(p, level));
    var last := TwoRounds(BlockOf(p), level, keys);
    PermutationsInvert(BlockBytes(last));
    BlockRoundTrip(last, p);
    TwoRoundsInvert(BlockOf(p), level, keys);
    PermutationsInvert(seed);
  }

  /** The permuted level bytes agree in their low three bits. */
  predicate SameCount(s: seq<bv8>, t: seq<bv8>, level: nat)
    requires |s| == 8 && |t| == 8 && level < 8
  {
    PermuteIn(s)[level] & 7 == PermuteIn(t)[level] & 7
  }

  lemma LevelsUpToThreeAreInjective(s: seq<bv8>, t: seq<bv8>, salt: seq<bv8>, level: nat)
    requires |s| == 8 && |t| == 8 && |salt| == 8 && level < 4
    requires SameCount(s, t, level)
    requires CipherKey(s, salt, level) == CipherKey(t, salt, level)
    ensures s == t
  {
    hide CipherKey, SeedOf, PermuteIn;
    SeedIsRecovered(s, salt, level);
    SeedIsRecovered(t, salt, level);
  }

  // ----- what the shift register forgets -----

  function Halved(b: bv8): bv8 { b >> 1 }

  function LowSeven(b: bv8): bv8 { b & 0x7F }

  lemma ShiftInDetermines(a: bv8, x: bv8, b: bv8, y: bv8)
    ensures ShiftIn(a, x) == ShiftIn(b, y) <==> Halved(a) == Halved(b) && LowBit(x) == LowBit(y)
  {
    assert ShiftIn(a, x) & 0x7F == Halved(a) && ShiftIn(a, x) >> 7 == LowBit(x);
    assert ShiftIn(b, y) & 0x7F == Halved(b) && ShiftIn(b, y) >> 7 == LowBit(y);
  }

  lemma HalvesAndBits(a: bv8, b: bv8)
    ensures a == b <==> Halved(a) == Halved(b) && LowBit(a) == LowBit(b)
  {
    assert a == (Halved(a) << 1) | LowBit(a) && b == (Halved(b) << 1) | LowBit(b);
  }

  lemma RotBytesIsInjective(s: seq<bv8>, t: seq<bv8>)
    requires |s| == |t| && RotBytes(s) == RotBytes(t)
    ensures s == t
  {
    hide ShiftIn, Halved, LowBit;
    var n := |s|;
    forall i | 0 <= i < n ensures s[i] == t[i] {
      var next := if i == n - 1 then 0 else i + 1;
      assert Before(next, n) == i;
      assert RotBytes(s)[i] == RotBytes(t)[i] && RotBytes(s)[next] == RotBytes(t)[next];
      ShiftInDetermines(s[i], s[Before(i, n)], t[i], t[Before(i, n)]);
      ShiftInDetermines(s[next], s[i], t[next], t[i]);
      HalvesAndBits(s[i], t[i]);
    }
  }

  lemma FeedbackIgnoresTopBit(s: seq<bv8>, b: bv8)
    requires |s| == 8 && LowSeven(s[7]) == LowSeven(b)
    ensures Feedback(s[7 := b]) == Feedback(s)
  {
    assert (s[7] >> 4) & 1 == (b >> 4) & 1;
  }

  lemma WithFeedbackKeepsLowSeven(a: bv8, b: bv8, f: bv8, g: bv8)
    ensures WithFeedback(a, f) == WithFeedback(b, g) ==> LowSeven(a) == LowSeven(b)
    ensures LowSeven(a) == LowSeven(b) ==> WithFeedback(a, f) == WithFeedback(b, f)
  {
    assert WithFeedback(a, f) & 0x7F == LowSeven(a) && WithFeedback(b, g) & 0x7F == LowSeven(b);
  }

  /** One step forgets one bit and no more: two states have the same successor
      exactly when they differ at most in bit 7 of the last byte. */
  lemma LfsrStepForgetsOneBit(s: seq<bv8>, t: seq<bv8>)
    requires |s| == |t| == 8
    ensures LfsrStep(s) == LfsrStep(t) <==> s[..7] == t[..7] && LowSeven(s[7]) == LowSeven(t[7])
  {
    hide RotBytes, Feedback, WithFeedback, LowSeven;
    var s', t' := s[7 := WithFeedback(s[7], Feedback(s))], t[7 := WithFeedback(t[7], Feedback(t))];
    WithFeedbackKeepsLowSeven(s[7], t[7], Feedback(s), Feedback(t));
    assert s'[..7] == s[..7] && t'[..7] == t[..7];
    if LfsrStep(s) == LfsrStep(t) {
      RotBytesIsInjective(s', t');
      assert s'[7] == t'[7];
    }
    if s[..7] == t[..7] && LowSeven(s[7]) == LowSeven(t[7]) {
      assert s[7 := t[7]] == t by {
        forall i | 0 <= i < 7 ensures s[i] == t[i] {
          assert s[..7][i] == t[..7][i];
        }
      }
      FeedbackIgnoresTopBit(s, t[7]);
      assert s' == t';
    }
  }
}
