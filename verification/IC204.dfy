/** The IC204 provider: one byte array holds the working block, the shift
    register and the permuted seed, and is rewritten in place phase by phase. */
module IC204 {
  import opened Words
  import opened Cipher
  import opened Provider

  /** The big-endian word at `o`. */
  function W(a: array<bv8>, o: nat): bv32
    requires o + 4 <= a.Length
    reads a
  {
    Word(a[o], a[o + 1], a[o + 2], a[o + 3])
  }

  /** Only the four bytes at `o` may differ between `before` and the array. */
  predicate OnlyAt(a: array<bv8>, before: seq<bv8>, o: nat, n: nat)
    requires |before| == a.Length
    reads a
  {
    forall i | 0 <= i < a.Length && !(o <= i < o + n) :: a[i] == before[i]
  }

  function HalfByte(b: bv8): bv8 { (b >> 1) & 0x7F }

  function SetTop(b: bv8): bv8 { b | 0x80 }

  lemma TurnedByte(b: bv8, neighbour: bv8)
    ensures ShiftIn(b, neighbour) == if LowBit(neighbour) != 0 then SetTop(HalfByte(b)) else HalfByte(b)
  {
  }

  method RotateRightArray(buf: array<bv8>, offset: nat, length: nat)
    requires offset + length <= buf.Length
    modifies buf
    ensures OnlyAt(buf, old(buf[..]), offset, length)
    ensures 0 < length <= 8 ==> buf[offset..offset + length] == RotBytes(old(buf[offset..offset + length]))
    ensures length == 0 || length > 8 ==> buf[..] == old(buf[..])
  {
    if length == 0 || length > 8 {
      return;
    }
    hide ShiftIn, LowBit, HalfByte, SetTop, RotBytes;
    ghost var s := buf[offset..offset + length];
    ghost var turned := RotBytes(s);
    var carries := new bv8[length];
    for i := 0 to length
      modifies carries
      invariant forall k | 0 <= k < i :: carries[k] == LowBit(s[k])
    {
      carries[i] := LowBit(buf[offset + i]);
    }
    for i := 0 to length
      invariant OnlyAt(buf, old(buf[..]), offset, length)
      invariant forall k | 0 <= k < length :: carries[k] == LowBit(s[k])
      invariant forall k | offset <= k < offset + i :: buf[k] == turned[k - offset]
      invariant forall k | offset + i <= k < offset + length :: buf[k] == s[k - offset]
    {
      var carryIdx := if i == 0 then length - 1 else i - 1;
      var shifted := HalfByte(buf[offset + i]);
      TurnedByte(s[i], s[carryIdx]);
      RotBytesAt(s, i);
      if carries[carryIdx] != 0 {
        shifted := SetTop(shifted);
      }
      buf[offset + i] := shifted;
    }
    assert buf[offset..offset + length] == turned;
  }

  /** `count` single-bit rotations of the four bytes at `offset`. */
  method RotateBy(buf: array<bv8>, offset: nat, count: nat)
    requires offset + 4 <= buf.Length
    modifies buf
    ensures OnlyAt(buf, old(buf[..]), offset, 4)
    ensures W(buf, offset) == RotRight(old(W(buf, offset)), count)
  {
    hide Word, RotRight1, ShiftIn;
    ghost var before := buf[..];
    for n := 0 to count
      invariant OnlyAt(buf, before, offset, 4)
      invariant W(buf, offset) == RotRight(old(W(buf, offset)), n)
    {
      ghost var s := buf[offset..offset + 4];
      RotateRightArray(buf, offset, 4);
      ghost var t := buf[offset..offset + 4];
      assert t == RotBytes(s);
      TurnFourBytes(s[0], s[1], s[2], s[3]);
      assert W(buf, offset) == Word(t[0], t[1], t[2], t[3]);
    }
  }

  method Copy4(a: array<bv8>, to: nat, from: nat)
    requires to + 4 <= a.Length && from + 4 <= a.Length
    requires to + 4 <= from || from + 4 <= to
    modifies a
    ensures OnlyAt(a, old(a[..]), to, 4)
    ensures W(a, to) == old(W(a, from))
  {
    hide Word;
    ghost var before := a[..];
    for i := 0 to 4
      invariant OnlyAt(a, before, to, 4)
      invariant forall k | to <= k < to + i :: a[k] == before[k - to + from]
    {
      a[to + i] := a[from + i];
    }
  }

  method Xor4(a: array<bv8>, to: nat, from: nat)
    requires to + 4 <= a.Length && from + 4 <= a.Length
    requires to + 4 <= from || from + 4 <= to
    modifies a
    ensures OnlyAt(a, old(a[..]), to, 4)
    ensures W(a, to) == Xor(old(W(a, to)), old(W(a, from)))
  {
    hide Word, Xor, XorByte;
    ghost var before := a[..];
    for i := 0 to 4
      invariant OnlyAt(a, before, to, 4)
      invariant forall k | to <= k < to + i :: a[k] == XorByte(before[k], before[k - to + from])
      invariant forall k | to + i <= k < to + 4 :: a[k] == before[k]
    {
      a[to + i] := XorByte(a[to + i], a[from + i]);
    }
    XorByBytes(before[to], before[to + 1], before[to + 2], before[to + 3],
               before[from], before[from + 1], before[from + 2], before[from + 3]);
  }

  lemma XorByBytes(a: bv8, b: bv8, c: bv8, d: bv8, e: bv8, f: bv8, g: bv8, h: bv8)
    ensures Word(XorByte(a, e), XorByte(b, f), XorByte(c, g), XorByte(d, h)) == Xor(Word(a, b, c, d), Word(e, f, g, h))
  {
  }

  /** Transpose the four bytes at `from` into the four bytes at `to`. */
  method TransposeTo(a: array<bv8>, to: nat, from: nat)
    requires to + 4 <= a.Length && from + 4 <= a.Length
    requires to + 4 <= from || from + 4 <= to
    modifies a
    ensures OnlyAt(a, old(a[..]), to, 4)
    ensures W(a, to) == Transpose(old(W(a, from)))
  {
    hide Word, Byte0, Byte1, Byte2, Byte3;
    var t0, t1, t2, t3 := a[from], a[from + 1], a[from + 2], a[from + 3];
    a[to + 2] := t0;
    a[to] := t1;
    a[to + 1] := t3;
    a[to + 3] := t2;
    BytesOfWord(t0, t1, t2, t3);
  }

  /** Phases 1 to 14: both words of the salt are expanded where they stand. */
  method SaltPhases(local: array<bv8>)
    requires local.Length == 0x14
    modifies local
    ensures W(local, 0x0C) == Expand(old(W(local, 0x0C))) && W(local, 0x10) == Expand(old(W(local, 0x10)))
  {
    hide Word, Expand;
    ghost var high, low := W(local, 0x0C), W(local, 0x10);
    Copy4(local, 0x00, 0x10);
    Copy4(local, 0x04, 0x0C);
    Copy4(local, 0x08, 0x00);
    ExpandInPlace(local, 0x00);
    assert W(local, 0x00) == Expand(low) && W(local, 0x04) == high;
    Copy4(local, 0x08, 0x04);
    ExpandInPlace(local, 0x04);
    assert W(local, 0x00) == Expand(low) && W(local, 0x04) == Expand(high);
    Copy4(local, 0x10, 0x00);
    Copy4(local, 0x0C, 0x04);
  }

  method SaltTransform(salt: seq<bv8>, output: array<bv8>)
    requires |salt| == 8 && output.Length == 8
    modifies output
    ensures output[..] == BytesOf(Expand(WordOf(salt[..4]))) + BytesOf(Expand(WordOf(salt[4..])))
  {
    hide Word, Byte0, Byte1, Byte2, Byte3, Expand;
    ghost var low, high := WordOf(salt[4..]), WordOf(salt[..4]);
    var local := new bv8[0x14](_ => 0);
    forall i | 0 <= i < 8 {
      local[0x0C + i] := salt[i];
    }
    assert W(local, 0x0C) == high && W(local, 0x10) == low;
    SaltPhases(local);
    forall i | 0 <= i < 8 {
      output[i] := local[0x0C + i];
    }
    assert output[..] == local[0x0C..0x10] + local[0x10..0x14];
    WordBytes(local, 0x0C);
    WordBytes(local, 0x10);
  }

  lemma WordBytes(a: array<bv8>, o: nat)
    requires o + 4 <= a.Length
    ensures a[o..o + 4] == BytesOf(W(a, o))
  {
    hide Word, Byte0, Byte1, Byte2, Byte3;
    BytesOfWord(a[o], a[o + 1], a[o + 2], a[o + 3]);
  }

  /** Phases 4 to 7 of the salt transform for the word at 0x08, whose expansion
      goes to `to`; phases 9 to 12 are the same with another target. */
  method ExpandInPlace(local: array<bv8>, to: nat)
    requires local.Length == 0x14 && to <= 0x04
    modifies local
    ensures OnlyAt(local, old(local[..]), to, 0x0C - to)
    ensures forall i | to + 4 <= i < 0x08 :: local[i] == old(local[i])
    ensures var w := old(W(local, 0x08));
      && W(local, to) == Expand(w)
      && W(local, to) == Xor(RotRight(Transpose(w), Value(w) / 256 % 16 + 1), RotRight(w, Value(w) % 16 + 1))
  {
    hide Word, Byte0, Byte1, Byte2, Byte3, Transpose, LowNibble, Xor, RotRight, Value;
    ghost var w := W(local, 0x08);
    BytesOfWord(local[8], local[9], local[10], local[11]);
    TransposeTo(local, to, 0x08);
    assert local[0x0A] == Byte2(w) && local[0x0B] == Byte3(w);
    var rotateCount := LowNibble(local[0x0A]) + 1;
    RotateBy(local, to, rotateCount);
    assert local[0x0B] == Byte3(w) && W(local, 0x08) == w;
    rotateCount := LowNibble(local[0x0B]) + 1;
    RotateBy(local, 0x08, rotateCount);
    assert W(local, 0x08) == RotRight(w, LowNibble(Byte3(w)) + 1);
    Xor4(local, to, 0x08);
    ExpandIs(w);
  }

  // ----- the shift register -----

  method ComputeLfsrFeedback(ws: array<bv8>)
    requires ws.Length == 0x20
    modifies ws
    ensures OnlyAt(ws, old(ws[..]), 0x0F, 1)
    ensures ws[0x0F] == WithFeedback(old(ws[0x0F]), Feedback(old(ws[0x08..0x10])))
  {
    ghost var s := ws[0x08..0x10];
    assert s[0] == ws[0x08] && s[1] == ws[0x09] && s[2] == ws[0x0A] && s[3] == ws[0x0B];
    assert s[4] == ws[0x0C] && s[5] == ws[0x0D] && s[6] == ws[0x0E] && s[7] == ws[0x0F];
    var fb := (ws[0x08] >> 3) & 1;
    fb := fb ^ (ws[0x09] & 1);
    fb := fb ^ ((ws[0x0A] >> 1) & 1);
    fb := fb ^ ((ws[0x0B] >> 7) & 1);
    fb := fb ^ ((ws[0x0C] >> 5) & 1);
    fb := fb ^ ((ws[0x0D] >> 2) & 1);
    fb := fb ^ ((ws[0x0E] >> 6) & 1);
    fb := fb ^ ((ws[0x0F] >> 4) & 1);
    assert fb == Feedback(s);
    ws[0x0F] := (ws[0x0F] & 0x7F) | (fb << 7);
  }

  method RunLfsr(ws: array<bv8>, count: nat)
    requires ws.Length == 0x20
    modifies ws
    ensures OnlyAt(ws, old(ws[..]), 0x08, 8)
    ensures ws[0x08..0x10] == Lfsr(old(ws[0x08..0x10]), count)
  {
    hide RotBytes, Feedback, WithFeedback;
    ghost var before := ws[..];
    for n := 0 to count
      invariant OnlyAt(ws, before, 0x08, 8)
      invariant ws[0x08..0x10] == Lfsr(before[0x08..0x10], n)
    {
      ghost var s := ws[0x08..0x10];
      ComputeLfsrFeedback(ws);
      assert ws[0x08..0x10] == s[7 := WithFeedback(s[7], Feedback(s))];
      RotateRightArray(ws, 0x08, 8);
    }
  }

  // ----- the Feistel network -----

  function Le32Load(buf: array<bv8>, offset: nat): bv32
    requires offset + 4 <= buf.Length
    reads buf
  {
    Word(buf[offset + 3], buf[offset + 2], buf[offset + 1], buf[offset])
  }

  method Le32Store(buf: array<bv8>, offset: nat, val: bv32)
    requires offset + 4 <= buf.Length
    modifies buf
    ensures OnlyAt(buf, old(buf[..]), offset, 4)
    ensures W(buf, offset) == SwapBytes(val)
  {
    buf[offset] := Byte3(val);
    buf[offset + 1] := Byte2(val);
    buf[offset + 2] := Byte1(val);
    buf[offset + 3] := Byte0(val);
    hide Word, Byte0, Byte1, Byte2, Byte3;
  }

  lemma LoadIsSwap(buf: array<bv8>, offset: nat)
    requires offset + 4 <= buf.Length
    ensures Le32Load(buf, offset) == SwapBytes(W(buf, offset))
  {
    hide Word, Byte0, Byte1, Byte2, Byte3;
    BytesOfWord(buf[offset], buf[offset + 1], buf[offset + 2], buf[offset + 3]);
  }

  /** The block in the working bytes, of which bytes 0x10 on hold a copy. */
  function Working(ws: array<bv8>): Block
    requires ws.Length == 0x20
    reads ws
  {
    Block(W(ws, 0x00), W(ws, 0x04))
  }

  predicate Copied(ws: array<bv8>)
    requires ws.Length == 0x20
    reads ws
  {
    W(ws, 0x10) == W(ws, 0x00) && W(ws, 0x14) == W(ws, 0x04)
  }

  lemma LevelByteIsStored(ws: array<bv8>, level: nat)
    requires ws.Length == 0x20 && level < 8
    ensures LevelByte(Working(ws), level) == ws[level]
  {
    hide Word, Byte0, Byte1, Byte2, Byte3;
    BytesOfWord(ws[0], ws[1], ws[2], ws[3]);
    BytesOfWord(ws[4], ws[5], ws[6], ws[7]);
  }

  /** Half-round A with the key word at 0x08, half-round B with that at 0x0C. */
  method HalfRoundInPlace(ws: array<bv8>, level: nat, keyAt: nat)
    requires ws.Length == 0x20 && level < 8 && (keyAt == 0x08 || keyAt == 0x0C)
    requires Copied(ws)
    modifies ws
    ensures Copied(ws)
    ensures Working(ws) == HalfRound(old(Working(ws)), level, old(W(ws, keyAt)))
    ensures forall i | 0x08 <= i < 0x10 :: ws[i] == old(ws[i])
  {
    hide Word, SwapBytes, Sum, Xor, RotRight, LevelByte, Turns, Le32Load;
    ghost var b := Working(ws);
    Xor4(ws, 0x10, 0x14);
    assert Working(ws) == b;
    LevelByteIsStored(ws, level);
    var rotCount := Turns(ws[level]);
    RotateBy(ws, 0x10, rotCount);
    var valA := Le32Load(ws, 0x10);
    var valB := Le32Load(ws, keyAt);
    LoadIsSwap(ws, 0x10);
    LoadIsSwap(ws, keyAt);
    Le32Store(ws, 0x10, Sum(valA, valB));
    assert Working(ws) == b;
    Copy4(ws, 0x14, 0x00);
    Copy4(ws, 0x00, 0x10);
    Copy4(ws, 0x04, 0x14);
  }

  // ----- the provider -----

  function UdsToInternalLevel(udsLevel: int): int {
    if udsLevel == 0x01 then 1
    else if udsLevel == 0x03 then 3
    else if udsLevel == 0x09 then 5
    else if udsLevel == 0x0D then 7
    else (udsLevel + 1) / 2
  }

  /** Exactly the access levels from 1 to 14 are accepted; the shift register
      then reads this byte of the permuted seed. */
  lemma AcceptedLevels(udsLevel: int)
    ensures 1 <= UdsToInternalLevel(udsLevel) <= 7 <==> 1 <= udsLevel <= 14
    ensures 1 <= udsLevel <= 14 ==>
      UdsToInternalLevel(udsLevel) == [0, 1, 1, 3, 2, 3, 3, 4, 4, 5, 5, 6, 6, 7, 7][udsLevel]
  {
  }

  method PermuteSeed(ws: array<bv8>, seed: seq<bv8>)
    requires ws.Length == 0x20 && |seed| == 8
    modifies ws
    ensures ws[0x10..0x18] == PermuteIn(seed)
  {
    ws[0x10] := seed[7];
    ws[0x11] := seed[4];
    ws[0x12] := seed[3];
    ws[0x13] := seed[6];
    ws[0x14] := seed[5];
    ws[0x15] := seed[1];
    ws[0x16] := seed[0];
    ws[0x17] := seed[2];
  }

  /** The shift register starts from the expanded salt and runs `count` steps. */
  method PrepareRoundKeys(ws: array<bv8>, salt: seq<bv8>, count: nat)
    requires ws.Length == 0x20 && |salt| == 8
    modifies ws
    ensures OnlyAt(ws, old(ws[..]), 0x08, 8)
    ensures ws[0x08..0x10] == RoundKeys(salt, count)
  {
    hide Word, Byte0, Byte1, Byte2, Byte3, Expand, LfsrStep;
    var lfsrState := new bv8[8];
    SaltTransform(salt, lfsrState);
    forall i | 0 <= i < 8 {
      ws[0x08 + i] := lfsrState[i];
    }
    ghost var start := ws[0x08..0x10];
    assert start == lfsrState[..];
    assert start == BytesOf(Expand(WordOf(salt[..4]))) + BytesOf(Expand(WordOf(salt[4..])));
    RunLfsr(ws, count);
    assert ws[0x08..0x10] == Lfsr(start, count);
  }

  method RunRounds(ws: array<bv8>, level: nat)
    requires ws.Length == 0x20 && level < 8 && Copied(ws)
    modifies ws
    ensures Working(ws) == TwoRounds(old(Working(ws)), level, old(ws[0x08..0x10]))
  {
    hide Word, HalfRound;
    ghost var b, keys := Working(ws), ws[0x08..0x10];
    ghost var keyA, keyB := WordOf(keys[..4]), WordOf(keys[4..]);
    assert W(ws, 0x08) == keyA && W(ws, 0x0C) == keyB;
    for round := 0 to 2
      invariant Copied(ws)
      invariant W(ws, 0x08) == keyA && W(ws, 0x0C) == keyB
      invariant round == 0 ==> Working(ws) == b
      invariant round == 1 ==> Working(ws) == Round(b, level, keyA, keyB)
      invariant round == 2 ==> Working(ws) == TwoRounds(b, level, keys)
    {
      HalfRoundInPlace(ws, level, 0x08);
      HalfRoundInPlace(ws, level, 0x0C);
    }
  }

  method PermuteKey(ws: array<bv8>) returns (key: seq<bv8>)
    requires ws.Length == 0x20
    ensures key == PermuteOut(BlockBytes(Working(ws)))
  {
    hide Word, BytesOf;
    var outKey := new bv8[8];
    outKey[0] := ws[3];
    outKey[1] := ws[5];
    outKey[2] := ws[6];
    outKey[3] := ws[1];
    outKey[4] := ws[0];
    outKey[5] := ws[7];
    outKey[6] := ws[4];
    outKey[7] := ws[2];
    WordBytes(ws, 0x00);
    WordBytes(ws, 0x04);
    assert BlockBytes(Working(ws)) == ws[0x00..0x08];
    key := outKey[..];
  }

  method GenerateKey(seed: seq<bv8>, keyLength: int, accessLevel: int, salt: seq<bv8>) returns (key: Key<bv8>)
    ensures var level := UdsToInternalLevel(accessLevel);
      key == if |seed| != 8 || keyLength != 8 || |salt| != 8 || level < 1 || level > 7 then NoKey
             else KeyBytes(CipherKey(seed, salt, level))
  {
    if |seed| != 8 || keyLength != 8 || |salt| != 8 {
      return NoKey;
    }
    var level := UdsToInternalLevel(accessLevel);
    if level < 1 || level > 7 {
      return NoKey;
    }
    key := Encrypt(seed, level, salt);
  }

  /** Steps 1 to 7 of the provider, once its arguments are accepted. */
  method Encrypt(seed: seq<bv8>, level: nat, salt: seq<bv8>) returns (key: Key<bv8>)
    requires |seed| == 8 && |salt| == 8 && level < 8
    ensures key == KeyBytes(CipherKey(seed, salt, level))
  {
    hide Word, RoundKeys, TwoRounds, PermuteIn, PermuteOut, BlockBytes, BlockOf, LfsrCount;
    ghost var p := PermuteIn(seed);
    var ws := new bv8[0x20](_ => 0);
    PermuteSeed(ws, seed);
    assert ws[0x10 + level] == ws[0x10..0x18][level];
    var lfsrCount := CountAt(ws, level, p);
    PrepareRoundKeys(ws, salt, lfsrCount);
    ghost var keys := RoundKeys(salt, lfsrCount);
    assert ws[0x10..0x18] == p;
    Copy4(ws, 0x00, 0x10);
    Copy4(ws, 0x04, 0x14);
    assert ws[0x10..0x18] == p && ws[0x08..0x10] == keys;
    WorkingIs(ws, p);
    RunRounds(ws, level);
    var bytes := PermuteKey(ws);
    key := KeyBytes(bytes);
  }

  method CountAt(ws: array<bv8>, level: nat, ghost p: seq<bv8>) returns (count: nat)
    requires ws.Length == 0x20 && |p| == 8 && level < 8 && ws[0x10 + level] == p[level]
    ensures count == LfsrCount(p, level)
  {
    count := Nat8(ws[0x10 + level] & 0x07) + 2;
  }

  lemma WorkingIs(ws: array<bv8>, p: seq<bv8>)
    requires ws.Length == 0x20 && ws[0x10..0x18] == p && Copied(ws)
    ensures Working(ws) == BlockOf(p)
  {
    hide Word;
    assert p[..4] == ws[0x10..0x14] && p[4..] == ws[0x14..0x18];
  }
}
