/** The VDO provider: the same cipher written on separate byte arrays, with the
    level and the key constant as parameters. */
module VDO {
  import opened Words
  import opened Cipher
  import opened Provider
  import IC204

  method RotateBits(inBytes: array<bv8>)
    modifies inBytes
    ensures inBytes[..] == RotBytes(old(inBytes[..]))
  {
    hide ShiftIn, RotBytes, LowBit, IC204.HalfByte, IC204.SetTop;
    ghost var s := inBytes[..];
    ghost var turned := RotBytes(s);
    var tempBuffer := new bv8[inBytes.Length](_ => 0);
    for i := 0 to tempBuffer.Length
      invariant inBytes[..] == s
      invariant forall k | 0 <= k < i :: tempBuffer[k] == if LowBit(s[k]) != 0 then 0x80 else 0
      invariant forall k | i <= k < tempBuffer.Length :: tempBuffer[k] == 0
    {
      if LowBit(inBytes[i]) > 0 {
        tempBuffer[i] := 0x80;
      }
    }
    for i := 0 to tempBuffer.Length
      invariant forall k | 0 <= k < tempBuffer.Length :: tempBuffer[k] == if LowBit(s[k]) != 0 then 0x80 else 0
      invariant forall k | 0 <= k < i :: inBytes[k] == turned[k]
      invariant forall k | i <= k < inBytes.Length :: inBytes[k] == s[k]
    {
      var rIndex := i - 1;
      if rIndex < 0 {
        rIndex := tempBuffer.Length - 1;
      }
      RotBytesAt(s, i);
      JoinedByte(s[i], s[rIndex]);
      inBytes[i] := OrByte(inBytes[i] >> 1, tempBuffer[rIndex]);
    }
  }

  lemma JoinedByte(b: bv8, neighbour: bv8)
    ensures ShiftIn(b, neighbour) == OrByte(b >> 1, if LowBit(neighbour) != 0 then 0x80 else 0)
  {
  }

  method RotateBitsN(inBytes: array<bv8>, count: nat)
    modifies inBytes
    ensures inBytes[..] == RotBytesBy(old(inBytes[..]), count)
  {
    hide RotBytes;
    for n := 0 to count
      invariant inBytes[..] == RotBytesBy(old(inBytes[..]), n)
    {
      RotateBits(inBytes);
    }
  }

  // ----- key expansion -----

  method Expand32BitKey(key: array<bv8>)
    requires key.Length == 4
    modifies key
    ensures var w := WordOf(old(key[..]));
      && key[..] == BytesOf(Expand(w))
      && key[..] == BytesOf(Xor(RotRight(Transpose(w), Value(w) / 256 % 16 + 1), RotRight(w, Value(w) % 16 + 1)))
  {
    hide Word, Byte0, Byte1, Byte2, Byte3, RotBytesBy, RotRight, Xor, XorByte, Value;
    ghost var s := key[..];
    ghost var w := WordOf(s);
    BytesOfWord(s[0], s[1], s[2], s[3]);
    assert Byte2(w) == key[2] && Byte3(w) == key[3];
    var keyA := new bv8[] [key[0], key[1], key[2], key[3]];
    var keyP := new bv8[] [key[1], key[3], key[0], key[2]];
    assert WordOf(keyA[..]) == w && WordOf(keyP[..]) == Transpose(w);
    ghost var p := keyP[..];
    assert keyA[..] == s;
    var rotateCountP := LowNibble(key[2]) + 1;
    RotateBitsN(keyP, rotateCountP);
    ByteRotationIsWordRotation(p, rotateCountP);
    var rotateCountA := LowNibble(key[3]) + 1;
    RotateBitsN(keyA, rotateCountA);
    ByteRotationIsWordRotation(s, rotateCountA);
    XorInto(key, keyA, keyP);
    ExpandIs(w);
  }

  /** The exclusive-or of the two rotated copies. */
  method XorInto(key: array<bv8>, keyA: array<bv8>, keyP: array<bv8>)
    requires key.Length == keyA.Length == keyP.Length == 4 && key != keyA && key != keyP
    modifies key
    ensures key[..] == BytesOf(Xor(WordOf(keyP[..]), WordOf(keyA[..])))
  {
    hide WordOf, BytesOf, Xor, XorByte;
    ghost var a', p' := keyA[..], keyP[..];
    for i := 0 to key.Length
      invariant keyA[..] == a' && keyP[..] == p'
      invariant forall k | 0 <= k < i :: key[k] == XorByte(p'[k], a'[k])
    {
      XorByteCommutes(keyA[i], keyP[i]);
      key[i] := XorByte(keyA[i], keyP[i]);
    }
    XorOfWords(p', a', key[..]);
  }

  lemma XorByteCommutes(a: bv8, b: bv8)
    ensures XorByte(a, b) == XorByte(b, a)
  {
  }

  lemma XorOfWords(a: seq<bv8>, b: seq<bv8>, c: seq<bv8>)
    requires |a| == |b| == |c| == 4
    requires forall k | 0 <= k < 4 :: c[k] == XorByte(a[k], b[k])
    ensures c == BytesOf(Xor(WordOf(a), WordOf(b)))
  {
    hide Word, Byte0, Byte1, Byte2, Byte3, Xor, XorByte;
    IC204.XorByBytes(a[0], a[1], a[2], a[3], b[0], b[1], b[2], b[3]);
    BytesOfWord(c[0], c[1], c[2], c[3]);
  }

  method ExpandFullKey(keyConstant: array<bv8>)
    requires keyConstant.Length >= 8
    modifies keyConstant
    ensures keyConstant[..8] == BytesOf(Expand(WordOf(old(keyConstant[..4]))))
                              + BytesOf(Expand(WordOf(old(keyConstant[4..8]))))
  {
    hide WordOf, BytesOf, Expand, Transpose, RotRight, Xor, Value;
    var keyLower := new bv8[] [keyConstant[0], keyConstant[1], keyConstant[2], keyConstant[3]];
    var keyUpper := new bv8[] [keyConstant[4], keyConstant[5], keyConstant[6], keyConstant[7]];
    assert keyLower[..] == keyConstant[..4] && keyUpper[..] == keyConstant[4..8];
    Expand32BitKey(keyLower);
    Expand32BitKey(keyUpper);
    forall i | 0 <= i < 4 {
      keyConstant[i] := keyLower[i];
    }
    forall i | 0 <= i < 4 {
      keyConstant[4 + i] := keyUpper[i];
    }
    assert keyConstant[..8] == keyLower[..] + keyUpper[..];
  }

  // ----- the shift register -----

  lemma Taps(a: bv8)
    ensures (a & 8) >> 3 == (a >> 3) & 1 && (a & 1) >> 0 == a & 1 && (a & 2) >> 1 == (a >> 1) & 1
    ensures (a & 0x80) >> 7 == (a >> 7) & 1 && (a & 0x20) >> 5 == (a >> 5) & 1 && (a & 4) >> 2 == (a >> 2) & 1
    ensures (a & 0x40) >> 6 == (a >> 6) & 1 && (a & 0x10) >> 4 == (a >> 4) & 1
  {
  }

  function Tap(b: bv8, mask: bv8, shift: bv8): bv8
    requires shift < 8
  {
    (b & mask) >> shift
  }

  lemma TapsAreFeedback(s: seq<bv8>)
    requires |s| == 8
    ensures Tap(s[0], 8, 3) ^ Tap(s[1], 1, 0) ^ Tap(s[2], 2, 1) ^ Tap(s[3], 0x80, 7)
          ^ Tap(s[4], 0x20, 5) ^ Tap(s[5], 4, 2) ^ Tap(s[6], 0x40, 6) ^ Tap(s[7], 0x10, 4) == Feedback(s)
  {
    Taps(s[0]);
    Taps(s[1]);
    Taps(s[2]);
    Taps(s[3]);
    Taps(s[4]);
    Taps(s[5]);
    Taps(s[6]);
    Taps(s[7]);
  }

  lemma FeedbackIsXorByte(s: seq<bv8>)
    requires |s| == 8
    ensures var half := XorByte(XorByte(XorByte(XorByte(0, Tap(s[0], 8, 3)), Tap(s[1], 1, 0)), Tap(s[2], 2, 1)),
                                Tap(s[3], 0x80, 7));
      XorByte(XorByte(XorByte(XorByte(half, Tap(s[4], 0x20, 5)), Tap(s[5], 4, 2)), Tap(s[6], 0x40, 6)),
              Tap(s[7], 0x10, 4)) == Feedback(s)
  {
    hide Feedback, Tap, XorByte;
    TapsAreFeedback(s);
    FoldOfEight(Tap(s[0], 8, 3), Tap(s[1], 1, 0), Tap(s[2], 2, 1), Tap(s[3], 0x80, 7),
                Tap(s[4], 0x20, 5), Tap(s[5], 4, 2), Tap(s[6], 0x40, 6), Tap(s[7], 0x10, 4));
  }

  /** The masked copies are folded into the feedback bit. */
  method FoldTaps(mKey: array<bv8>) returns (xorIntermediate: bv8)
    requires mKey.Length == 8
    ensures xorIntermediate == Feedback(mKey[..])
  {
    hide Feedback, Tap, XorByte;
    ghost var s := mKey[..];
    var ek := new bv8[] [mKey[0], mKey[1], mKey[2], mKey[3], mKey[4], mKey[5], mKey[6], mKey[7]];
    xorIntermediate := 0;
    ek[0] := Tap(ek[0], 8, 3);
    xorIntermediate := XorByte(xorIntermediate, ek[0]);
    assert ek[1..] == s[1..];
    ek[1] := Tap(ek[1], 1, 0);
    xorIntermediate := XorByte(xorIntermediate, ek[1]);
    assert ek[2..] == s[2..];
    ek[2] := Tap(ek[2], 2, 1);
    xorIntermediate := XorByte(xorIntermediate, ek[2]);
    assert ek[3..] == s[3..];
    ek[3] := Tap(ek[3], 0x80, 7);
    xorIntermediate := XorByte(xorIntermediate, ek[3]);
    assert ek[4..] == s[4..];
    ek[4] := Tap(ek[4], 0x20, 5);
    xorIntermediate := XorByte(xorIntermediate, ek[4]);
    assert ek[5..] == s[5..];
    ek[5] := Tap(ek[5], 4, 2);
    xorIntermediate := XorByte(xorIntermediate, ek[5]);
    assert ek[6..] == s[6..];
    ek[6] := Tap(ek[6], 0x40, 6);
    xorIntermediate := XorByte(xorIntermediate, ek[6]);
    assert ek[7..] == s[7..];
    ek[7] := Tap(ek[7], 0x10, 4);
    xorIntermediate := XorByte(xorIntermediate, ek[7]);
    FeedbackIsXorByte(s);
  }

  lemma FoldOfEight(a: bv8, b: bv8, c: bv8, d: bv8, e: bv8, f: bv8, g: bv8, h: bv8)
    ensures var half := XorByte(XorByte(XorByte(XorByte(0, a), b), c), d);
      XorByte(XorByte(XorByte(XorByte(half, e), f), g), h) == a ^ b ^ c ^ d ^ e ^ f ^ g ^ h
  {
  }

  method Morph(mKey: array<bv8>)
    requires mKey.Length == 8
    modifies mKey
    ensures mKey[..] == LfsrStep(old(mKey[..]))
  {
    hide RotBytes, Feedback, WithFeedback;
    ghost var s := mKey[..];
    var xorIntermediate := FoldTaps(mKey);
    mKey[7] := Finish(mKey[7], xorIntermediate);
    assert mKey[..] == s[7 := WithFeedback(s[7], Feedback(s))];
    RotateBits(mKey);
  }

  function Finish(snapshot: bv8, feedback: bv8): (b: bv8)
    ensures b == WithFeedback(snapshot, feedback)
  {
    (feedback << 7) | (snapshot & 0x7F)
  }

  /** Where an index into eight bytes points: negative ones count from the end. */
  function PyIndex(i: int): (k: int)
    ensures -8 <= i < 8 ==> k == i % 8
  {
    if i < 0 then i + 8 else i
  }

  method ExpandAndTransformKey(level: nat, transposedSeed: array<bv8>, kc: array<bv8>) returns (mKey: array<bv8>)
    requires level < 8 && transposedSeed.Length == 8 && kc.Length >= 8 && kc != transposedSeed
    modifies kc
    ensures fresh(mKey) && mKey.Length == 8
    ensures mKey[..] == RoundKeys(old(kc[..8]), LfsrCount(transposedSeed[..], level))
  {
    hide Word, Byte0, Byte1, Byte2, Byte3, Expand, LfsrStep;
    var morphCount := Nat8(transposedSeed[level] & 7) + 2;
    ghost var salt := kc[..8];
    assert salt[..4] == kc[..4] && salt[4..] == kc[4..8];
    ExpandFullKey(kc);
    mKey := new bv8[8](i requires 0 <= i < 8 && kc.Length >= 8 reads kc => kc[i]);
    ghost var start := mKey[..];
    assert start == kc[..8];
    for n := 0 to morphCount
      invariant mKey[..] == Lfsr(start, n)
    {
      Morph(mKey);
    }
  }

  // ----- the Feistel network -----

  ghost function View(tp: array<bv8>): Block
    requires tp.Length == 8
    reads tp
  {
    BlockOf(tp[..])
  }

  lemma ViewIs(tp: array<bv8>)
    requires tp.Length == 8
    ensures View(tp) == Block(IC204.W(tp, 0), IC204.W(tp, 4))
  {
    hide Word;
    assert tp[..][..4] == tp[..4] && tp[..][4..] == tp[4..8];
  }

  /** `a |= b << 8 ...`: four bytes, the first the least significant. */
  function LittleSum(b: seq<bv8>): bv32
    requires |b| == 4
  {
    Word(b[3], b[2], b[1], b[0])
  }

  /** Turn the lower four bytes through a temporary array. */
  method RotateLower(tp: array<bv8>, rotateCount: nat)
    requires tp.Length == 8
    modifies tp
    ensures IC204.OnlyAt(tp, old(tp[..]), 0, 4)
    ensures IC204.W(tp, 0) == RotRight(old(IC204.W(tp, 0)), rotateCount)
  {
    hide Word, RotRight, RotBytesBy;
    var lowerRotateBytes := new bv8[] [tp[0], tp[1], tp[2], tp[3]];
    ghost var s := lowerRotateBytes[..];
    RotateBitsN(lowerRotateBytes, rotateCount);
    ByteRotationIsWordRotation(s, rotateCount);
    forall i | 0 <= i < 4 {
      tp[i] := lowerRotateBytes[i];
    }
  }

  /** One half of the cipher iteration; `at` picks the half of the round keys. */
  method HalfIteration(tp: array<bv8>, tpc: array<bv8>, level: nat, ik: array<bv8>, at: nat)
    requires tp.Length == tpc.Length == ik.Length == 8 && tp != tpc && tp != ik && tpc != ik
    requires level < 8 && (at == 0 || at == 4)
    requires tp[..] == tpc[..]
    modifies tp, tpc
    ensures tp[..] == tpc[..]
    ensures View(tpc) == HalfRound(old(View(tpc)), level, WordOf(ik[at..at + 4]))
  {
    hide Word, WordOf, AddLittle, Xor, RotRight, LevelByte, Turns;
    ghost var b, k := View(tpc), ik[at..at + 4];
    ViewIs(tp);
    ViewIs(tpc);
    IC204.Xor4(tp, 0, 4);
    LevelByteOf(tpc, level);
    var rotateCount := Turns(tpc[level]);
    RotateLower(tp, rotateCount);
    assert IC204.W(tp, 0) == RotRight(Xor(b.left, b.right), rotateCount);
    assert View(tpc) == b;
    assert ik[at..at + 4] == k;
    AddKey(tp, ik, at);
    forall i | 0 <= i < 4 {
      tp[4 + i] := tpc[i];
    }
    assert IC204.W(tp, 4) == IC204.W(tpc, 0) == b.left;
    ViewIs(tp);
    forall i | 0 <= i < 8 {
      tpc[i] := tp[i];
    }
    assert tp[..] == tpc[..];
    assert View(tpc) == View(tp);
    assert ik[at..at + 4] == k;
    assert View(tpc).left == AddLittle(RotRight(Xor(b.left, b.right), rotateCount), WordOf(k));
  }

  lemma BlockBytesOfView(tpc: array<bv8>)
    requires tpc.Length == 8
    ensures BlockBytes(View(tpc)) == tpc[..]
  {
    hide Word, Byte0, Byte1, Byte2, Byte3;
    BytesRoundTrip(0, tpc[..][..4]);
    BytesRoundTrip(0, tpc[..][4..]);
  }

  lemma LevelByteOf(tpc: array<bv8>, level: nat)
    requires tpc.Length == 8 && level < 8
    ensures LevelByte(View(tpc), level) == tpc[level]
  {
    hide *;
    BlockBytesOfView(tpc);
    LevelByteIndexes(View(tpc), level);
    assert tpc[..][level] == tpc[level];
  }

  method AddKey(tp: array<bv8>, ik: array<bv8>, at: nat)
    requires tp.Length == ik.Length == 8 && tp != ik && (at == 0 || at == 4)
    modifies tp
    ensures IC204.OnlyAt(tp, old(tp[..]), 0, 4)
    ensures IC204.W(tp, 0) == AddLittle(old(IC204.W(tp, 0)), WordOf(ik[at..at + 4]))
  {
    hide Word, Byte0, Byte1, Byte2, Byte3, Sum;
    ghost var w := IC204.W(tp, 0);
    BytesOfWord(tp[0], tp[1], tp[2], tp[3]);
    BytesOfWord(ik[at], ik[at + 1], ik[at + 2], ik[at + 3]);
    var tpSum := LittleSum(tp[..4]);
    var ikSum := LittleSum(ik[at..at + 4]);
    tpSum := Sum(tpSum, ikSum);
    tp[0] := Byte3(tpSum);
    tp[1] := Byte2(tpSum);
    tp[2] := Byte1(tpSum);
    tp[3] := Byte0(tpSum);
  }

  method Iterate(tp: array<bv8>, tpc: array<bv8>, level: nat, ik: array<bv8>)
    requires tp.Length == tpc.Length == ik.Length == 8 && tp != tpc && tp != ik && tpc != ik
    requires level < 8 && tp[..] == tpc[..]
    modifies tp, tpc
    ensures View(tpc) == TwoRounds(old(BlockOf(tpc[..])), level, ik[..])
  {
    hide HalfRound, WordOf;
    ghost var b, keys := View(tpc), ik[..];
    assert keys[..4] == ik[0..4] && keys[4..] == ik[4..8];
    ghost var keyA, keyB := WordOf(keys[..4]), WordOf(keys[4..]);
    for cipherIter := 0 to 2
      invariant tp[..] == tpc[..] && ik[..] == keys
      invariant cipherIter == 0 ==> View(tpc) == b
      invariant cipherIter == 1 ==> View(tpc) == Round(b, level, keyA, keyB)
      invariant cipherIter == 2 ==> View(tpc) == TwoRounds(b, level, keys)
    {
      HalfIteration(tp, tpc, level, ik, 0);
      HalfIteration(tp, tpc, level, ik, 4);
    }
  }

  /** The provider's core.  A level of -1 stands for itself as the scrambler
      level, so both table look-ups use the same index. */
  method CoreKey(level: int, seed: seq<bv8>, kc: array<bv8>) returns (key: Key<bv8>)
    requires |seed| == 8
    modifies kc
    ensures key == if level < -8 || level >= 8 || kc.Length < 8 then IndexFault
                   else KeyBytes(CipherKey(seed, old(kc[..8]), PyIndex(level)))
  {
    if level < -8 || level >= 8 || kc.Length < 8 {
      return IndexFault;
    }
    key := KeyAt(PyIndex(level), seed, kc);
  }

  /** The core once its index is one. */
  method KeyAt(i: nat, seed: seq<bv8>, kc: array<bv8>) returns (key: Key<bv8>)
    requires |seed| == 8 && i < 8 && kc.Length >= 8
    modifies kc
    ensures key == KeyBytes(CipherKey(seed, old(kc[..8]), i))
  {
    hide RoundKeys, LfsrCount, TwoRounds, BlockOf, PermuteOut;
    var tp := new bv8[] [seed[7], seed[4], seed[3], seed[6], seed[5], seed[1], seed[0], seed[2]];
    ghost var p := PermuteIn(seed);
    assert tp[..] == p;
    var ik := ExpandAndTransformKey(i, tp, kc);
    var tpc := new bv8[] [tp[0], tp[1], tp[2], tp[3], tp[4], tp[5], tp[6], tp[7]];
    assert tp[..] == tpc[..] == p;
    Iterate(tp, tpc, i, ik);
    BlockBytesOfView(tpc);
    key := KeyBytes([tpc[3], tpc[5], tpc[6], tpc[1], tpc[0], tpc[7], tpc[4], tpc[2]]);
    PermuteOutIs(tpc[..]);
  }

  lemma PermuteOutIs(s: seq<bv8>)
    requires |s| == 8
    ensures PermuteOut(s) == [s[3], s[5], s[6], s[1], s[0], s[7], s[4], s[2]]
  {
  }

  method GenerateKey(seed: seq<bv8>, keyLength: int, k: seq<bv8>, internalLevel: int) returns (key: Key<bv8>)
    ensures |seed| != 8 || keyLength != 8 ==> key == NoKey
    ensures |seed| == 8 && keyLength == 8 ==>
      key == if internalLevel < -8 || internalLevel >= 8 || |k| < 8 then IndexFault
             else KeyBytes(CipherKey(seed, k[..8], PyIndex(internalLevel)))
  {
    var kc := new bv8[|k|](i requires 0 <= i < |k| => k[i]);
    assert kc[..] == k;
    if |seed| != 8 || keyLength != 8 {
      return NoKey;
    }
    assert kc.Length >= 8 ==> kc[..8] == k[..8];
    key := CoreKey(internalLevel, seed, kc);
  }

  /** Both providers, run on the same seed: whenever the access level maps to an
      internal level from 1 to 7 they hand back the same key. */
  method ProvidersAgree(seed: seq<bv8>, salt: seq<bv8>, accessLevel: int) returns (a: Key<bv8>, b: Key<bv8>)
    requires |seed| == 8 && |salt| == 8 && 1 <= IC204.UdsToInternalLevel(accessLevel) <= 7
    ensures a == b == KeyBytes(CipherKey(seed, salt, IC204.UdsToInternalLevel(accessLevel)))
  {
    hide CipherKey;
    a := IC204.GenerateKey(seed, 8, accessLevel, salt);
    b := GenerateKey(seed, 8, salt, IC204.UdsToInternalLevel(accessLevel));
    assert salt[..8] == salt;
  }
}
