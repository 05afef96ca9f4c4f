/** The two BoschConti providers: one gathers the seed bits under a mask in a
    loop, the other picks three fixed bits. */
module BoschConti {
  import opened NatBits
  import opened Provider

  /** How many of the lowest `n` bits of the mask are set. */
  function CountBelow(mask: nat, n: nat): nat {
    if n == 0 then 0 else CountBelow(mask, n - 1) + if Bit(mask, n - 1) then 1 else 0
  }

  /** The masked bits among the lowest `n`, packed from bit zero up. */
  function PackBelow(seed: nat, mask: nat, n: nat): nat {
    if n == 0 then 0
    else
      var rest := PackBelow(seed, mask, n - 1);
      if Bit(mask, n - 1) && Bit(seed, n - 1) then rest + Pow2(CountBelow(mask, n - 1)) else rest
  }

  lemma {:induction false} PackIsBounded(seed: nat, mask: nat, n: nat)
    ensures PackBelow(seed, mask, n) < Pow2(CountBelow(mask, n))
  {
    if n != 0 {
      PackIsBounded(seed, mask, n - 1);
    }
  }

  lemma {:induction false} CountIncreases(mask: nat, k: nat, n: nat)
    requires k < n && Bit(mask, k)
    ensures CountBelow(mask, k) < CountBelow(mask, n)
    decreases n
  {
    if k < n - 1 {
      CountIncreases(mask, k, n - 1);
    }
  }

  /** The bit under the mask's j-th set bit becomes bit j of the index. */
  lemma {:induction false} PackedBit(seed: nat, mask: nat, k: nat, n: nat)
    requires k < n && Bit(mask, k)
    ensures Bit(PackBelow(seed, mask, n), CountBelow(mask, k)) <==> Bit(seed, k)
    decreases n
  {
    var c, top := CountBelow(mask, k), CountBelow(mask, n - 1);
    var rest := PackBelow(seed, mask, n - 1);
    PackIsBounded(seed, mask, n - 1);
    OrWithHighBit(rest, top);
    BitOfOr(rest, Pow2(top), c);
    BitOfPow2(c, top);
    if k < n - 1 {
      PackedBit(seed, mask, k, n - 1);
      CountIncreases(mask, k, n - 1);
    } else {
      BoundedHasNoHighBit(rest, top);
    }
  }

  lemma {:induction false} BoundedHasNoHighBit(x: nat, k: nat)
    requires x < Pow2(k)
    ensures !Bit(x, k)
    decreases k
  {
    if k != 0 {
      BoundedHasNoHighBit(x / 2, k - 1);
    }
  }

  ghost predicate AgreeUnder(s: nat, t: nat, mask: nat, n: nat) {
    forall k | 0 <= k < n && Bit(mask, k) :: Bit(s, k) == Bit(t, k)
  }

  /** Two seeds give one index exactly when they agree under the mask. */
  lemma {:induction false} PackSeparates(s: nat, t: nat, mask: nat, n: nat)
    ensures PackBelow(s, mask, n) == PackBelow(t, mask, n) <==> AgreeUnder(s, t, mask, n)
  {
    if PackBelow(s, mask, n) == PackBelow(t, mask, n) {
      forall k | 0 <= k < n && Bit(mask, k)
        ensures Bit(s, k) == Bit(t, k)
      {
        PackedBit(s, mask, k, n);
        PackedBit(t, mask, k, n);
      }
    }
    if AgreeUnder(s, t, mask, n) {
      SamePack(s, t, mask, n);
    }
  }

  lemma {:induction false} SamePack(s: nat, t: nat, mask: nat, n: nat)
    requires AgreeUnder(s, t, mask, n)
    ensures PackBelow(s, mask, n) == PackBelow(t, mask, n)
  {
    if n != 0 {
      SamePack(s, t, mask, n - 1);
    }
  }

  // ----- the looping provider -----

  function Word16(high: byte, low: byte): (w: nat)
    ensures w < 0x1_0000
  {
    high * 256 + low
  }

  lemma {:induction false} BitsOfWord16(high: nat, low: nat, k: nat, n: nat)
    requires low < Pow2(n)
    ensures Bit(high * Pow2(n) + low, k) <==> if k < n then Bit(low, k) else Bit(high, k - n)
    decreases n
  {
    if n != 0 {
      HalfOfJoined(high, Pow2(n - 1), low);
      if k != 0 {
        BitsOfWord16(high, low / 2, k - 1, n - 1);
      }
    }
  }

  lemma HalfOfJoined(high: nat, p: nat, low: nat)
    ensures high * (2 * p) + low == 2 * (high * p + low / 2) + low % 2
    ensures (high * (2 * p) + low) / 2 == high * p + low / 2 && (high * (2 * p) + low) % 2 == low % 2
  {
    assert high * (2 * p) == 2 * (high * p);
  }

  /** The second byte holds the low eight bits, the first byte the others. */
  lemma Word16Bits(high: byte, low: byte, k: nat)
    ensures Bit(Word16(high, low), k) <==> if k < 8 then Bit(low, k) else Bit(high, k - 8)
  {
    hide Bit;
    PowersUsed();
    BitsOfWord16(high, low, k, 8);
  }

  method GatherBits(seed: nat, mask: nat) returns (activatedBits: nat)
    ensures activatedBits == PackBelow(seed, mask, 16)
  {
    var shiftIndexA, shiftIndexB := 1, 1;
    activatedBits := 0;
    for i := 0 to 16
      invariant shiftIndexA == Pow2(i)
      invariant shiftIndexB == Pow2(CountBelow(mask, i))
      invariant activatedBits == PackBelow(seed, mask, i)
    {
      hide Pow2, And, Or, Bit;
      MaskTest(mask, i);
      MaskTest(seed, i);
      CountIsBounded(mask, i);
      MaskedDouble(i);
      MaskedDouble(CountBelow(mask, i));
      if And(shiftIndexA, mask) > 0 {
        if And(shiftIndexA, seed) > 0 {
          PackIsBounded(seed, mask, i);
          OrWithHighBit(activatedBits, CountBelow(mask, i));
          activatedBits := Or(activatedBits, shiftIndexB);
        }
        shiftIndexB := shiftIndexB * 2 % 0x1_0000_0000;
      }
      shiftIndexA := shiftIndexA * 2 % 0x1_0000_0000;
    }
  }

  lemma {:induction false} CountIsBounded(mask: nat, n: nat)
    ensures CountBelow(mask, n) <= n
  {
    if n != 0 {
      CountIsBounded(mask, n - 1);
    }
  }

  /** The 32-bit mask on a shifting index never cuts anything off. */
  lemma MaskedDouble(k: nat)
    requires k < 16
    ensures Pow2(k) * 2 % 0x1_0000_0000 == Pow2(k + 1)
  {
    assert Pow2(4) == 16 && Pow2(8) == 256 && Pow2(12) == 4096;
    Pow2Grows(k, 16);
  }

  lemma MaskTest(x: nat, k: nat)
    ensures And(Pow2(k), x) > 0 <==> Bit(x, k)
  {
    AndWithPow2(x, k);
    AndCommutes(Pow2(k), x);
  }

  lemma {:induction false} AndCommutes(x: nat, y: nat)
    ensures And(x, y) == And(y, x)
    decreases x
  {
    if x != 0 && y != 0 {
      AndCommutes(x / 2, y / 2);
    }
  }

  function Product(entry: byte, seed: nat): (p: nat)
    requires seed < 0x1_0000
    ensures p < 0x100_0000
  {
    ProductFits(entry, seed);
    entry * seed
  }

  /** The middle two bytes of the product of table entry and seed. */
  function MiddleBytes(entry: byte, seed: nat): Key<byte>
    requires seed < 0x1_0000
  {
    var product := Product(entry, seed);
    KeyBytes([product / 0x1_0000 % 256, product / 256 % 256])
  }

  function KeyAt(table: seq<byte>, index: nat, seed: nat): Key<byte>
    requires seed < 0x1_0000
  {
    if index < |table| then MiddleBytes(table[index], seed) else IndexFault
  }

  /** The table entry at the packed bits, times the seed. */
  function PackedKey(table: seq<byte>, mask: seq<byte>, seed: seq<byte>, keyLength: int): Key<byte> {
    if |seed| != 2 || keyLength != 2 then NoKey
    else if |mask| < 2 then IndexFault
    else
      var inSeedAsInt := Word16(seed[0], seed[1]);
      KeyAt(table, PackBelow(inSeedAsInt, Word16(mask[0], mask[1]), 16), inSeedAsInt)
  }

  method GenerateKey2(table: seq<byte>, mask: seq<byte>, seed: seq<byte>, keyLength: int) returns (key: Key<byte>)
    ensures key == PackedKey(table, mask, seed, keyLength)
  {
    if |seed| != 2 || keyLength != 2 {
      return NoKey;
    }
    if |mask| < 2 {
      return IndexFault;
    }
    var inSeedAsInt, maskAsInt := Word16(seed[0], seed[1]), Word16(mask[0], mask[1]);
    var activatedBits := GatherBits(inSeedAsInt, maskAsInt);
    if activatedBits >= |table| {
      return IndexFault;
    }
    hide Product;
    var product := Product(table[activatedBits], inSeedAsInt);
    var keyAsInt := product % 0x1_0000_0000 / 256;
    keyAsInt := keyAsInt % 0x1_0000;
    MiddleOfProduct(product);
    key := KeyBytes([keyAsInt / 256 % 256, keyAsInt % 256]);
  }

  lemma ProductFits(a: nat, b: nat)
    requires a < 256 && b < 0x1_0000
    ensures a * b < 0x100_0000
  {
    assert a * b <= 255 * b by {
      assert (255 - a) * b >= 0;
    }
  }

  lemma MiddleOfProduct(p: nat)
    requires p < 0x100_0000
    ensures p % 0x1_0000_0000 == p
    ensures (p / 256 % 0x1_0000) / 256 % 256 == p / 0x1_0000 % 256
    ensures (p / 256 % 0x1_0000) % 256 == p / 256 % 256
  {
    assert p / 256 < 0x1_0000;
    assert p / 256 / 256 == p / 0x1_0000;
  }

  function Joined(high: nat, low: nat): nat { 256 * high + low }

  /** The key is made of the middle two bytes of the product of the table entry and
      the seed; the product's lowest byte is left out. */
  lemma KeyIsTheMiddle(table: seq<byte>, mask: seq<byte>, high: byte, low: byte)
    requires |mask| >= 2
    ensures var seed := Joined(high, low);
      var index := PackBelow(seed, Joined(mask[0], mask[1]), 16);
      var key := PackedKey(table, mask, [high, low], 2);
      && (key == IndexFault <==> index >= |table|)
      && (index < |table| ==>
           && key.KeyBytes? && |key.bytes| == 2
           && table[index] * seed - 256 * Joined(key.bytes[0], key.bytes[1]) == table[index] * seed % 256)
  {
    hide PackBelow;
    assert Word16(high, low) == Joined(high, low) && Word16(mask[0], mask[1]) == Joined(mask[0], mask[1]);
    var index := PackBelow(Joined(high, low), Joined(mask[0], mask[1]), 16);
    if index < |table| {
      MiddleAndLow(Product(table[index], Joined(high, low)));
    }
  }

  lemma MiddleAndLow(p: nat)
    requires p < 0x100_0000
    ensures p - 256 * Joined(p / 0x1_0000 % 256, p / 256 % 256) == p % 256
  {
    assert p / 0x1_0000 < 256 && p / 256 == p / 0x1_0000 * 256 + p / 256 % 256;
  }

  // ----- the three-bit provider -----

  function ThreeBits(seed: nat, mask: nat): nat {
    Or(Or(And(And(seed, mask), 0x4000) / 0x1000, And(And(seed, mask), 0x200) / 0x100),
       And(And(seed, mask), 0x100) / 0x100)
  }

  function GenerateKey1(table: seq<byte>, mask: seq<byte>, seed: seq<byte>, keyLength: int): Key<byte> {
    if |seed| != 2 || keyLength != 2 then NoKey
    else if |mask| < 2 then IndexFault
    else
      var inSeedAsInt := Word16(seed[0], seed[1]);
      KeyAt(table, ThreeBits(inSeedAsInt, Word16(mask[0], mask[1])), inSeedAsInt)
  }

  lemma PowersUsed()
    ensures Pow2(8) == 0x100 && Pow2(9) == 0x200 && Pow2(14) == 0x4000 && Pow2(1) == 2 && Pow2(2) == 4 && Pow2(3) == 8
  {
    assert Pow2(4) == 16 && Pow2(8) == 256;
    assert Pow2(12) == 4096;
  }

  lemma BitsOfTheMask()
    ensures forall k | 0 <= k < 16 :: Bit(0x4300, k) <==> k == 8 || k == 9 || k == 14
  {
    hide Pow2, Or, Bit;
    PowersUsed();
    OrWithHighBit(Pow2(8), 9);
    OrWithHighBit(Pow2(8) + Pow2(9), 14);
    PowersUsed();
    forall k | 0 <= k < 16
      ensures Bit(0x4300, k) <==> k == 8 || k == 9 || k == 14
    {
      BitOfOr(Pow2(8), Pow2(9), k);
      BitOfOr(Pow2(8) + Pow2(9), Pow2(14), k);
      BitOfPow2(k, 8);
      BitOfPow2(k, 9);
      BitOfPow2(k, 14);
    }
  }

  lemma CountsOfTheMask()
    ensures CountBelow(0x4300, 8) == 0 && CountBelow(0x4300, 9) == 1
    ensures CountBelow(0x4300, 14) == 2 && CountBelow(0x4300, 16) == 3
  {
    BitsOfTheMask();
    NoneBelow(8);
    assert CountBelow(0x4300, 10) == 2;
    assert CountBelow(0x4300, 11) == 2;
    assert CountBelow(0x4300, 12) == 2;
    assert CountBelow(0x4300, 13) == 2;
    assert CountBelow(0x4300, 15) == 3;
  }

  lemma {:induction false} NoneBelow(n: nat)
    requires n <= 8
    ensures CountBelow(0x4300, n) == 0
  {
    BitsOfTheMask();
    if n != 0 {
      NoneBelow(n - 1);
    }
  }

  function Weight(x: nat, k: nat, w: nat): nat { if Bit(x, k) then w else 0 }

  lemma SmallNumber(x: nat)
    requires x < 8
    ensures x == Weight(x, 0, 1) + Weight(x, 1, 2) + Weight(x, 2, 4)
  {
    assert Bit(x, 1) <==> Bit(x / 2, 0);
    assert Bit(x, 2) <==> Bit(x / 2, 1);
    assert Bit(x / 2, 1) <==> Bit(x / 2 / 2, 0);
  }

  lemma OrOfThree(a: bool, b: bool, c: bool)
    ensures Or(Or(if a then 4 else 0, if b then 2 else 0), if c then 1 else 0)
         == (if c then 1 else 0) + (if b then 2 else 0) + (if a then 4 else 0)
  {
  }

  /** Under the mask 0x4300 the loop gathers the three fixed bits. */
  lemma MaskGathersThreeBits(seed: nat)
    ensures PackBelow(seed, 0x4300, 16) == ThreeBits(seed, 0x4300)
  {
    BitsOfTheMask();
    CountsOfTheMask();
    PowersUsed();
    var index := PackBelow(seed, 0x4300, 16);
    PackIsBounded(seed, 0x4300, 16);
    PackedBit(seed, 0x4300, 8, 16);
    PackedBit(seed, 0x4300, 9, 16);
    PackedBit(seed, 0x4300, 14, 16);
    SmallNumber(index);
    ThreeBitsAre(seed);
    OrOfThree(Bit(seed, 14), Bit(seed, 9), Bit(seed, 8));
  }

  lemma ThreeBitsAre(seed: nat)
    ensures ThreeBits(seed, 0x4300)
         == Or(Or(if Bit(seed, 14) then 4 else 0, if Bit(seed, 9) then 2 else 0), if Bit(seed, 8) then 1 else 0)
  {
    hide Pow2, And, Or, Bit;
    PowersUsed();
    BitsOfTheMask();
    var m := And(seed, 0x4300);
    AndWithPow2(m, 14);
    AndWithPow2(m, 9);
    AndWithPow2(m, 8);
    BitOfAnd(seed, 0x4300, 14);
    BitOfAnd(seed, 0x4300, 9);
    BitOfAnd(seed, 0x4300, 8);
  }

  /** With the mask 43 00 both providers have the same key, for every seed, key
      length and table; an index error needs a table shorter than eight. */
  lemma ProvidersAgree(table: seq<byte>, seed: seq<byte>, keyLength: int)
    ensures GenerateKey1(table, [0x43, 0x00], seed, keyLength) == PackedKey(table, [0x43, 0x00], seed, keyLength)
    ensures PackedKey(table, [0x43, 0x00], seed, keyLength).IndexFault? ==> |table| < 8
  {
    if |seed| == 2 && keyLength == 2 {
      var s := Word16(seed[0], seed[1]);
      MaskGathersThreeBits(s);
      PackIsBounded(s, 0x4300, 16);
      CountsOfTheMask();
      PowersUsed();
    }
  }

  /** The two providers run side by side. */
  method RunBoth(table: seq<byte>, seed: seq<byte>, keyLength: int) returns (a: Key<byte>, b: Key<byte>)
    ensures a == GenerateKey1(table, [0x43, 0x00], seed, keyLength) == b
    ensures b == PackedKey(table, [0x43, 0x00], seed, keyLength)
  {
    ProvidersAgree(table, seed, keyLength);
    a := GenerateKey1(table, [0x43, 0x00], seed, keyLength);
    b := GenerateKey2(table, [0x43, 0x00], seed, keyLength);
  }
}
