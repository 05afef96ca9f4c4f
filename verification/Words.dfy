/** 32-bit words: shifts, rotations by a count, population count.

    A shift by `n` places is `n` shifts by one place, which is what `<<` and
    `>>` mean on a 32-bit word for every count.  Both shipped forms of a
    rotation are modelled: the closed form of the Python helpers and the
    bit-by-bit loop of the C# helpers. */
module Words {

  const TOP: bv32 := 0x8000_0000

  // ----- one-place steps; kept small so that no proof below meets raw bits -----

  function Half(x: bv32): bv32 { x >> 1 }

  function Double(x: bv32): bv32 { x << 1 }

  function RotRight1(x: bv32): bv32 { (x >> 1) | (x << 31) }

  function RotLeft1(x: bv32): bv32 { (x << 1) | (x >> 31) }

  function Or(x: bv32, y: bv32): bv32 { x | y }

  predicate Meets(x: bv32, mask: bv32) { x & mask != 0 }

  // ----- by a count -----

  function ShiftRight(x: bv32, n: nat): bv32 {
    if n == 0 then x else Half(ShiftRight(x, n - 1))
  }

  function ShiftLeft(x: bv32, n: nat): bv32 {
    if n == 0 then x else Double(ShiftLeft(x, n - 1))
  }

  /** `n` one-place rotations: the specification of every rotation loop. */
  function RotRight(x: bv32, n: nat): bv32 {
    if n == 0 then x else RotRight1(RotRight(x, n - 1))
  }

  function RotLeft(x: bv32, n: nat): bv32 {
    if n == 0 then x else RotLeft1(RotLeft(x, n - 1))
  }

  /** The closed forms of the Python helpers; the count is reduced with Python's
      remainder, which is never negative. */
  function RotateLeftClosed(val: bv32, count: int): bv32 {
    var c := count % 32;
    if c == 0 then val else Or(ShiftLeft(val, c), ShiftRight(val, 32 - c))
  }

  function RotateRightClosed(val: bv32, count: int): bv32 {
    var c := count % 32;
    if c == 0 then val else Or(ShiftRight(val, c), ShiftLeft(val, 32 - c))
  }

  // ----- the loop forms of the C# helpers -----

  method RotateLeftLoop(word: bv32, count: int) returns (val: bv32)
    ensures val == RotLeft(word, if count < 0 then 0 else count)
  {
    val := word;
    var i := 0;
    while i < count
      invariant 0 <= i && (i <= count || i == 0)
      invariant val == RotLeft(word, i)
    {
      var bitSet := Meets(val, TOP);
      CarryLeft(val);
      val := Double(val);
      if bitSet {
        val := Or(val, 1);
      }
      i := i + 1;
    }
  }

  method RotateRightLoop(word: bv32, count: int) returns (val: bv32)
    ensures val == RotRight(word, if count < 0 then 0 else count)
  {
    val := word;
    var i := 0;
    while i < count
      invariant 0 <= i && (i <= count || i == 0)
      invariant val == RotRight(word, i)
    {
      var bitSet := Meets(val, 1);
      CarryRight(val);
      val := Half(val);
      if bitSet {
        val := Or(val, TOP);
      }
      i := i + 1;
    }
  }

  lemma CarryLeft(x: bv32)
    ensures RotLeft1(x) == if Meets(x, TOP) then Or(Double(x), 1) else Double(x)
  {
    assert x >> 31 == if Meets(x, TOP) then 1 else 0;
  }

  lemma CarryRight(x: bv32)
    ensures RotRight1(x) == if Meets(x, 1) then Or(Half(x), TOP) else Half(x)
  {
  }

  // ----- rotations compose and invert -----

  lemma {:induction false} RotRightAdd(x: bv32, m: nat, n: nat)
    ensures RotRight(x, m + n) == RotRight(RotRight(x, m), n)
  {
    if n != 0 {
      RotRightAdd(x, m, n - 1);
    }
  }

  lemma {:induction false} RotLeftAdd(x: bv32, m: nat, n: nat)
    ensures RotLeft(x, m + n) == RotLeft(RotLeft(x, m), n)
  {
    if n != 0 {
      RotLeftAdd(x, m, n - 1);
    }
  }

  lemma RotOneInverse(x: bv32)
    ensures RotLeft1(RotRight1(x)) == x
    ensures RotRight1(RotLeft1(x)) == x
  {
  }

  /** The two loop directions undo each other for every count. */
  lemma {:induction false} RotInverse(x: bv32, n: nat)
    ensures RotLeft(RotRight(x, n), n) == x
    ensures RotRight(RotLeft(x, n), n) == x
  {
    if n != 0 {
      RotInverse(x, n - 1);
      RotLeftAdd(RotRight(x, n), 1, n - 1);
      RotRightAdd(RotLeft(x, n), 1, n - 1);
      assert RotLeft(RotRight(x, n), 1) == RotLeft1(RotLeft(RotRight(x, n), 0));
      assert RotRight(RotLeft(x, n), 1) == RotRight1(RotRight(RotLeft(x, n), 0));
      RotOneInverse(RotRight(x, n - 1));
      RotOneInverse(RotLeft(x, n - 1));
    }
  }

  function Xor(x: bv32, y: bv32): bv32 { x ^ y }

  function XorByte(a: bv8, b: bv8): bv8 { a ^ b }

  function OrByte(a: bv8, b: bv8): bv8 { a | b }

  lemma XorInverts(x: bv32, y: bv32)
    ensures Xor(Xor(x, y), y) == x
  {
  }

  lemma XorAssociates(x: bv32, y: bv32, z: bv32)
    ensures Xor(Xor(x, y), z) == Xor(x, Xor(y, z))
  {
  }

  lemma XorCommutes(x: bv32, y: bv32)
    ensures Xor(x, y) == Xor(y, x)
  {
  }

  lemma XorRotOne(x: bv32, y: bv32)
    ensures RotRight1(Xor(x, y)) == Xor(RotRight1(x), RotRight1(y))
    ensures RotLeft1(Xor(x, y)) == Xor(RotLeft1(x), RotLeft1(y))
  {
  }

  lemma {:induction false} RotRightXor(x: bv32, y: bv32, n: nat)
    ensures RotRight(Xor(x, y), n) == Xor(RotRight(x, n), RotRight(y, n))
  {
    if n != 0 {
      RotRightXor(x, y, n - 1);
      XorRotOne(RotRight(x, n - 1), RotRight(y, n - 1));
    }
  }

  lemma RotRightBy4(x: bv32)
    ensures RotRight(x, 4) == (x >> 4) | (x << 28)
  {
    FourSteps(x);
    assert RotRight(x, 1) == RotRight1(RotRight(x, 0));
    assert RotRight(x, 2) == RotRight1(RotRight(x, 1));
    assert RotRight(x, 3) == RotRight1(RotRight(x, 2));
  }

  lemma FourSteps(x: bv32)
    ensures RotRight1(RotRight1(RotRight1(RotRight1(x)))) == (x >> 4) | (x << 28)
  {
  }

  lemma RotRightBy8(x: bv32)
    ensures RotRight(x, 8) == (x >> 8) | (x << 24)
  {
    RotRightBy4(x);
    RotRightBy4(RotRight(x, 4));
    RotRightAdd(x, 4, 4);
  }

  lemma RotRightBy16(x: bv32)
    ensures RotRight(x, 16) == (x >> 16) | (x << 16)
  {
    RotRightBy8(x);
    RotRightBy8(RotRight(x, 8));
    RotRightAdd(x, 8, 8);
  }

  lemma RotRightBy32(x: bv32)
    ensures RotRight(x, 32) == x
  {
    RotRightBy16(x);
    RotRightBy16(RotRight(x, 16));
    RotRightAdd(x, 16, 16);
  }

  lemma {:induction false} RotRightMod32(x: bv32, n: nat)
    ensures RotRight(x, n) == RotRight(x, n % 32)
    decreases n
  {
    if n >= 32 {
      RotRightAdd(x, n - 32, 32);
      RotRightBy32(RotRight(x, n - 32));
      RotRightMod32(x, n - 32);
    }
  }

  /** A left rotation is the complementary right rotation. */
  lemma {:induction false} RotLeftAsRight(x: bv32, n: nat)
    requires n <= 32
    ensures RotLeft(x, n) == RotRight(x, 32 - n)
  {
    RotRightAdd(RotLeft(x, n), n, 32 - n);
    RotInverse(x, n);
    RotRightBy32(RotLeft(x, n));
  }

  lemma {:induction false} RotLeftMod32(x: bv32, n: nat)
    ensures RotLeft(x, n) == RotLeft(x, n % 32)
    decreases n
  {
    if n >= 32 {
      RotLeftAdd(x, n - 32, 32);
      RotLeftAsRight(RotLeft(x, n - 32), 32);
      assert RotRight(RotLeft(x, n - 32), 0) == RotLeft(x, n - 32);
      RotLeftMod32(x, n - 32);
    }
  }

  // ----- bytes and integer values -----

  function Word(a: bv8, b: bv8, c: bv8, d: bv8): bv32 {
    ((a as bv32) << 24) | ((b as bv32) << 16) | ((c as bv32) << 8) | (d as bv32)
  }

  function Byte0(w: bv32): bv8 { ((w >> 24) & 0xFF) as bv8 }

  function Byte1(w: bv32): bv8 { ((w >> 16) & 0xFF) as bv8 }

  function Byte2(w: bv32): bv8 { ((w >> 8) & 0xFF) as bv8 }

  function Byte3(w: bv32): bv8 { (w & 0xFF) as bv8 }

  lemma BytesOfWord(a: bv8, b: bv8, c: bv8, d: bv8)
    ensures Byte0(Word(a, b, c, d)) == a
    ensures Byte1(Word(a, b, c, d)) == b
    ensures Byte2(Word(a, b, c, d)) == c
    ensures Byte3(Word(a, b, c, d)) == d
  {
  }

  lemma WordOfBytes(w: bv32)
    ensures Word(Byte0(w), Byte1(w), Byte2(w), Byte3(w)) == w
  {
  }

  /** Four bytes as a big-endian word. */
  function WordOf(s: seq<bv8>): bv32
    requires |s| == 4
  {
    Word(s[0], s[1], s[2], s[3])
  }

  function BytesOf(w: bv32): (s: seq<bv8>)
    ensures |s| == 4
  {
    [Byte0(w), Byte1(w), Byte2(w), Byte3(w)]
  }

  lemma BytesRoundTrip(w: bv32, s: seq<bv8>)
    requires |s| == 4
    ensures WordOf(BytesOf(w)) == w
    ensures BytesOf(WordOf(s)) == s
  {
    hide Word, Byte0, Byte1, Byte2, Byte3;
    WordOfBytes(w);
    BytesOfWord(s[0], s[1], s[2], s[3]);
  }

  function Nat8(b: bv8): (n: nat)
    ensures n < 256
  {
    b as nat
  }

  function Bits8(n: nat): (b: bv8)
    requires n < 256
    ensures Nat8(b) == n
  {
    if n == 0 then 0 else NextByte(Bits8(n - 1))
  }

  function NextByte(b: bv8): (c: bv8)
    requires Nat8(b) < 255
    ensures Nat8(c) == Nat8(b) + 1
  {
    b + 1
  }

  lemma Nat8IsInjective(a: bv8, b: bv8)
    requires Nat8(a) == Nat8(b)
    ensures a == b
  {
    assert (a as nat) as bv8 == a;
    assert (b as nat) as bv8 == b;
  }

  /** The unsigned integer a word stands for. */
  function Value(w: bv32): (n: nat)
    ensures n < 0x1_0000_0000
  {
    Nat8(Byte0(w)) * 0x100_0000 + Nat8(Byte1(w)) * 0x1_0000 + Nat8(Byte2(w)) * 0x100 + Nat8(Byte3(w))
  }

  /** The low 32 bits of an integer, as a mask with 0xFFFFFFFF keeps them;
      negative integers wrap. */
  function Truncate(n: int): bv32 {
    var d := Digits(n % 0x1_0000_0000);
    Word(Bits8(d.0), Bits8(d.1), Bits8(d.2), Bits8(d.3))
  }

  lemma ValueOfWord(a: bv8, b: bv8, c: bv8, d: bv8)
    ensures Value(Word(a, b, c, d)) == Nat8(a) * 0x100_0000 + Nat8(b) * 0x1_0000 + Nat8(c) * 0x100 + Nat8(d)
  {
    hide Word, Byte0, Byte1, Byte2, Byte3, Nat8;
    BytesOfWord(a, b, c, d);
  }

  function Digits(m: nat): (d: (nat, nat, nat, nat))
    requires m < 0x1_0000_0000
    ensures d.0 < 256 && d.1 < 256 && d.2 < 256 && d.3 < 256
    ensures m == d.0 * 0x100_0000 + d.1 * 0x1_0000 + d.2 * 0x100 + d.3
  {
    var high, low := m / 0x1_0000, m % 0x1_0000;
    (high / 256, high % 256, low / 256, low % 256)
  }

  lemma ValueOfTruncate(n: int)
    ensures Value(Truncate(n)) == n % 0x1_0000_0000
  {
    hide Word, Value, Nat8, Bits8, Digits;
    var d := Digits(n % 0x1_0000_0000);
    ValueOfWord(Bits8(d.0), Bits8(d.1), Bits8(d.2), Bits8(d.3));
  }

  lemma DigitsAreUnique(m: nat, a: nat, b: nat, c: nat, d: nat)
    requires a < 256 && b < 256 && c < 256 && d < 256
    requires m == a * 0x100_0000 + b * 0x1_0000 + c * 0x100 + d
    ensures m < 0x1_0000_0000 && Digits(m) == (a, b, c, d)
  {
    var high, low := a * 256 + b, c * 256 + d;
    assert m == high * 0x1_0000 + low && low < 0x1_0000;
    HalvesAreUnique(m, high, low);
  }

  lemma HalvesAreUnique(m: nat, high: nat, low: nat)
    requires m == high * 0x1_0000 + low && low < 0x1_0000
    ensures m / 0x1_0000 == high && m % 0x1_0000 == low
  {
  }

  lemma DigitsOfValue(w: bv32)
    ensures Digits(Value(w)) == (Nat8(Byte0(w)), Nat8(Byte1(w)), Nat8(Byte2(w)), Nat8(Byte3(w)))
  {
    hide Byte0, Byte1, Byte2, Byte3, Nat8, Digits;
    DigitsAreUnique(Value(w), Nat8(Byte0(w)), Nat8(Byte1(w)), Nat8(Byte2(w)), Nat8(Byte3(w)));
  }

  lemma TruncateOfValue(w: bv32)
    ensures Truncate(Value(w)) == w
  {
    hide Value, Word, Byte0, Byte1, Byte2, Byte3, Nat8, Bits8, Digits;
    var d := Digits(Value(w));
    DigitsOfValue(w);
    Nat8IsInjective(Bits8(d.0), Byte0(w));
    Nat8IsInjective(Bits8(d.1), Byte1(w));
    Nat8IsInjective(Bits8(d.2), Byte2(w));
    Nat8IsInjective(Bits8(d.3), Byte3(w));
    WordOfBytes(w);
  }

  /** Addition and subtraction modulo 2^32. */
  function Sum(x: bv32, y: bv32): bv32 { Truncate(Value(x) + Value(y)) }

  function Difference(x: bv32, y: bv32): bv32 { Truncate(Value(x) - Value(y)) }

  lemma AddInverts(x: bv32, y: bv32)
    ensures Difference(Sum(x, y), y) == x
  {
    hide Value, Truncate;
    ValueOfTruncate(Value(x) + Value(y));
    TruncateOfValue(x);
    SameTruncation(Value(Sum(x, y)) - Value(y), Value(x));
  }

  lemma SubInverts(x: bv32, y: bv32)
    ensures Sum(Difference(x, y), y) == x
  {
    hide Value, Truncate;
    ValueOfTruncate(Value(x) - Value(y));
    TruncateOfValue(x);
    SameTruncation(Value(Difference(x, y)) + Value(y), Value(x));
  }

  lemma SameTruncation(m: int, n: int)
    requires (m - n) % 0x1_0000_0000 == 0
    ensures Truncate(m) == Truncate(n)
  {
    hide Word, Bits8, Digits;
    assert m % 0x1_0000_0000 == n % 0x1_0000_0000;
  }

  // ----- shifts -----

  lemma {:induction false} ShiftLeftFirst(m: bv32, n: nat)
    requires n != 0
    ensures ShiftLeft(m, n) == ShiftLeft(Double(m), n - 1)
  {
    if n == 1 {
      assert ShiftLeft(m, 0) == m;
    } else {
      ShiftLeftFirst(m, n - 1);
    }
  }

  lemma {:induction false} ShiftRightAdd(x: bv32, m: nat, n: nat)
    ensures ShiftRight(x, m + n) == ShiftRight(ShiftRight(x, m), n)
  {
    if n != 0 {
      ShiftRightAdd(x, m, n - 1);
    }
  }

  lemma HalfMeets(x: bv32, m: bv32)
    ensures Meets(Half(x), m) <==> Meets(x, Double(m))
    ensures Meets(Double(x), m) <==> Meets(x, Half(m))
  {
  }

  lemma {:induction false} ShiftRightMeets(x: bv32, m: bv32, n: nat)
    ensures Meets(ShiftRight(x, n), m) <==> Meets(x, ShiftLeft(m, n))
    decreases n
  {
    if n != 0 {
      HalfMeets(ShiftRight(x, n - 1), m);
      ShiftRightMeets(x, Double(m), n - 1);
      ShiftLeftFirst(m, n);
    }
  }

  lemma {:induction false} ShiftLeftMeets(x: bv32, m: bv32, n: nat)
    ensures Meets(ShiftLeft(x, n), m) <==> Meets(x, ShiftRight(m, n))
    decreases n
  {
    if n != 0 {
      HalfMeets(ShiftLeft(x, n - 1), m);
      ShiftLeftMeets(x, Half(m), n - 1);
      ShiftRightAdd(m, 1, n - 1);
      assert ShiftRight(m, 1) == Half(ShiftRight(m, 0));
    }
  }

  function Shr4(x: bv32): bv32 { x >> 4 }

  lemma FourHalves(x: bv32)
    ensures Half(Half(Half(Half(x)))) == Shr4(x)
  {
  }

  lemma ShiftRightBy4(x: bv32, n: nat)
    ensures ShiftRight(x, n + 4) == Shr4(ShiftRight(x, n))
  {
    FourHalves(ShiftRight(x, n));
    assert ShiftRight(x, n + 2) == Half(ShiftRight(x, n + 1));
    assert ShiftRight(x, n + 3) == Half(ShiftRight(x, n + 2));
  }

  lemma ShiftRightBy32(x: bv32)
    ensures ShiftRight(x, 32) == 0
    ensures ShiftRight(x, 28) == Shr4(Shr4(Shr4(Shr4(Shr4(Shr4(Shr4(x)))))))
  {
    ShiftRightBy4(x, 0);
    ShiftRightBy4(x, 4);
    ShiftRightBy4(x, 8);
    ShiftRightBy4(x, 12);
    ShiftRightBy4(x, 16);
    ShiftRightBy4(x, 20);
    ShiftRightBy4(x, 24);
    ShiftRightBy4(x, 28);
    EightFours(x);
  }

  lemma EightFours(x: bv32)
    ensures Shr4(Shr4(Shr4(Shr4(Shr4(Shr4(Shr4(Shr4(x)))))))) == 0
  {
  }

  /** At most one bit is set. */
  predicate Lone(m: bv32) { m & (m - 1) == 0 }

  lemma LoneHalf(m: bv32)
    ensures Lone(m) ==> Lone(Half(m))
    ensures Lone(m) && Half(m) != 0 ==> Double(Half(m)) == m && m != 0
    ensures Lone(TOP)
  {
  }

  lemma {:induction false} ShiftedTopIsLone(n: nat)
    ensures Lone(ShiftRight(TOP, n))
  {
    LoneHalf(TOP);
    if n != 0 {
      ShiftedTopIsLone(n - 1);
      LoneHalf(ShiftRight(TOP, n - 1));
    }
  }

  lemma TopReachesLow()
    ensures ShiftRight(TOP, 31) == 1
  {
    ShiftRightBy32(TOP);
    SevenFoursOfTop();
    assert ShiftRight(TOP, 29) == Half(ShiftRight(TOP, 28));
    assert ShiftRight(TOP, 30) == Half(ShiftRight(TOP, 29));
  }

  lemma SevenFoursOfTop()
    ensures Half(Half(Half(Shr4(Shr4(Shr4(Shr4(Shr4(Shr4(Shr4(TOP)))))))))) == 1
  {
  }

  /** Bit `c` counted from the bottom is bit `31 - c` counted from the top. */
  lemma {:induction false} OneBit(c: nat)
    requires c <= 31
    ensures ShiftLeft(1, c) == ShiftRight(TOP, 31 - c) != 0
  {
    if c == 0 {
      TopReachesLow();
    } else {
      OneBit(c - 1);
      ShiftedTopIsLone(31 - c);
      LoneHalf(ShiftRight(TOP, 31 - c));
    }
  }

  // ----- the closed forms equal the loops -----

  lemma RotateJoin(a: bv32, b: bv32)
    requires Meets(a, 1) <==> Meets(b, TOP)
    ensures RotRight1(Or(a, Double(b))) == Or(Half(a), b)
  {
  }

  lemma ShiftOut(x: bv32)
    ensures ShiftLeft(x, 32) == 0
  {
    ShiftLeftMeets(x, 0xFFFF_FFFF, 32);
    ShiftRightBy32(0xFFFF_FFFF);
    MeetsAll(ShiftLeft(x, 32));
    MeetsAll(x);
  }

  lemma MeetsAll(x: bv32)
    ensures Meets(x, 0xFFFF_FFFF) <==> x != 0
    ensures !Meets(x, 0)
    ensures Or(x, 0) == Or(0, x) == x
  {
  }

  lemma {:induction false} ClosedRight(x: bv32, c: nat)
    requires c <= 32
    ensures RotRight(x, c) == Or(ShiftRight(x, c), ShiftLeft(x, 32 - c))
  {
    if c == 0 {
      ShiftOut(x);
      MeetsAll(x);
    } else {
      ClosedRight(x, c - 1);
      ShiftRightMeets(x, 1, c - 1);
      ShiftLeftMeets(x, TOP, 32 - c);
      OneBit(c - 1);
      RotateJoin(ShiftRight(x, c - 1), ShiftLeft(x, 32 - c));
    }
  }

  lemma OrCommutes(x: bv32, y: bv32)
    ensures Or(x, y) == Or(y, x)
  {
  }

  /** For every word and every count from zero up the closed forms compute what
      the loops compute. */
  lemma ClosedFormsRefineLoops(x: bv32, count: nat)
    ensures RotateRightClosed(x, count) == RotRight(x, count)
    ensures RotateLeftClosed(x, count) == RotLeft(x, count)
  {
    var c := count % 32;
    RotRightMod32(x, count);
    RotLeftMod32(x, count);
    ClosedRight(x, c);
    RotLeftAsRight(x, c);
    ClosedRight(x, 32 - c);
    OrCommutes(ShiftLeft(x, c), ShiftRight(x, 32 - c));
  }

  lemma DoubleIsEven(z: bv32)
    ensures RotRight1(Double(z)) == Half(Double(z))
    ensures Double(z) != 1
    ensures RotRight1(1) == TOP
  {
  }

  lemma {:induction false} RotatedTop(j: nat)
    requires j <= 31
    ensures RotRight(TOP, j) == ShiftLeft(1, 31 - j)
  {
    OneBit(31 - j);
    if j != 0 {
      RotatedTop(j - 1);
      OneBit(32 - j);
      DoubleIsEven(ShiftLeft(1, 31 - j));
    }
  }

  /** Only whole turns leave the word 1 in place. */
  lemma RotationMovesOne(c: nat)
    ensures RotRight(1, c) == 1 <==> c % 32 == 0
  {
    var k := c % 32;
    RotRightMod32(1, c);
    if k != 0 {
      RotRightAdd(1, 1, k - 1);
      assert RotRight(1, 1) == RotRight1(RotRight(1, 0));
      DoubleIsEven(ShiftLeft(1, 31 - k));
      RotatedTop(k - 1);
      assert ShiftLeft(1, 32 - k) == Double(ShiftLeft(1, 31 - k));
      DoubleIsEven(ShiftLeft(1, 31 - k));
    }
  }

  /** A negative count turns the closed forms but stops the loops at once, so in
      either direction the two helpers agree on every word exactly when the count
      is not negative or is a whole number of turns. */
  lemma ClosedFormsAgreeExactly(count: int)
    ensures (forall x :: RotateRightClosed(x, count) == RotRight(x, if count < 0 then 0 else count))
       <==> count >= 0 || count % 32 == 0
    ensures (forall x :: RotateLeftClosed(x, count) == RotLeft(x, if count < 0 then 0 else count))
       <==> count >= 0 || count % 32 == 0
  {
    RightFormAgreesExactly(count);
    LeftFormAgreesExactly(count);
  }

  lemma RightFormAgreesExactly(count: int)
    ensures (forall x :: RotateRightClosed(x, count) == RotRight(x, if count < 0 then 0 else count))
       <==> count >= 0 || count % 32 == 0
  {
    if count >= 0 {
      forall x ensures RotateRightClosed(x, count) == RotRight(x, count) {
        ClosedFormsRefineLoops(x, count);
      }
    } else {
      var c := count % 32;
      ClosedRight(1, c);
      RotationMovesOne(c);
      assert RotateRightClosed(1, count) == RotRight(1, c);
    }
  }

  lemma LeftFormAgreesExactly(count: int)
    ensures (forall x :: RotateLeftClosed(x, count) == RotLeft(x, if count < 0 then 0 else count))
       <==> count >= 0 || count % 32 == 0
  {
    if count >= 0 {
      forall x ensures RotateLeftClosed(x, count) == RotLeft(x, count) {
        ClosedFormsRefineLoops(x, count);
      }
    } else {
      var c := count % 32;
      ClosedFormsRefineLoops(1, c);
      RotLeftAsRight(1, c);
      RotationMovesOne(32 - c);
      assert RotateLeftClosed(1, count) == RotLeft(1, c);
      if c == 0 {
        forall x ensures RotateLeftClosed(x, count) == RotLeft(x, 0) {
          assert RotateLeftClosed(x, count) == x;
        }
      }
    }
  }

  // ----- population count -----

  function Low(x: bv32): nat { if Meets(x, 1) then 1 else 0 }

  /** The number of one bits among the lowest `n`. */
  function OnesBelow(x: bv32, n: nat): nat {
    if n == 0 then 0 else OnesBelow(x, n - 1) + Low(ShiftRight(x, n - 1))
  }

  function Ones(x: bv32): nat { OnesBelow(x, 32) }

  method CountOnes(word: bv32) returns (result: int)
    ensures result == Ones(word)
  {
    result := 0;
    var val := word;
    ghost var i := 0;
    ShiftRightBy32(word);
    while val > 0
      invariant i <= 32
      invariant val == ShiftRight(word, i)
      invariant result == OnesBelow(word, i)
      decreases 32 - i
    {
      if Meets(val, 1) {
        result := result + 1;
      }
      val := Half(val);
      i := i + 1;
    }
    ZeroHasNoMore(word, i, 32);
  }

  lemma {:induction false} ZeroHasNoMore(x: bv32, i: nat, n: nat)
    requires i <= n && ShiftRight(x, i) == 0
    ensures OnesBelow(x, n) == OnesBelow(x, i) && ShiftRight(x, n) == 0
  {
    MeetsNone();
    if i < n {
      ZeroHasNoMore(x, i, n - 1);
    }
  }

  lemma MeetsNone()
    ensures Half(0) == 0 && !Meets(0, 1)
  {
  }

  lemma LowOfJoin(a: bv32, b: bv32)
    ensures Low(Or(a, Double(b))) == Low(a)
  {
  }

  /** Rotating and shifting right bring the same bit to the bottom. */
  lemma LowOfRotation(x: bv32, i: nat)
    requires i < 32
    ensures Low(RotRight(x, i)) == Low(ShiftRight(x, i))
  {
    ClosedRight(x, i);
    LowOfJoin(ShiftRight(x, i), ShiftLeft(x, 31 - i));
  }

  lemma {:induction false} OnesAfterTurn(x: bv32, n: nat)
    requires n <= 31
    ensures OnesBelow(RotRight1(x), n) + Low(x) == OnesBelow(x, n + 1)
  {
    if n == 0 {
      assert ShiftRight(x, 0) == x;
      assert OnesBelow(x, 1) == OnesBelow(x, 0) + Low(x);
    } else {
      OnesAfterTurn(x, n - 1);
      LowOfRotation(x, n);
      LowOfRotation(RotRight1(x), n - 1);
      RotRightAdd(x, 1, n - 1);
      assert RotRight(x, 1) == RotRight1(RotRight(x, 0));
    }
  }

  /** Rotation keeps the population count. */
  lemma {:induction false} RotationKeepsOnes(x: bv32, n: nat)
    ensures Ones(RotRight(x, n)) == Ones(x)
  {
    if n != 0 {
      RotationKeepsOnes(x, n - 1);
      var y := RotRight(x, n - 1);
      OnesAfterTurn(y, 31);
      LowOfRotation(RotRight1(y), 31);
      RotRightAdd(y, 1, 31);
      assert RotRight(y, 1) == RotRight1(RotRight(y, 0));
      RotRightBy32(y);
    }
  }

  lemma LowOfDisjoint(a: bv32, b: bv32)
    requires !Meets(a, b)
    ensures Low(Or(a, b)) == Low(a) + Low(b)
    ensures !Meets(Half(a), Half(b)) && Half(Or(a, b)) == Or(Half(a), Half(b))
  {
  }

  lemma {:induction false} DisjointShift(a: bv32, b: bv32, n: nat)
    requires !Meets(a, b)
    ensures !Meets(ShiftRight(a, n), ShiftRight(b, n))
    ensures ShiftRight(Or(a, b), n) == Or(ShiftRight(a, n), ShiftRight(b, n))
  {
    if n != 0 {
      DisjointShift(a, b, n - 1);
      LowOfDisjoint(ShiftRight(a, n - 1), ShiftRight(b, n - 1));
    }
  }

  lemma {:induction false} DisjointOnesBelow(a: bv32, b: bv32, n: nat)
    requires !Meets(a, b)
    ensures OnesBelow(Or(a, b), n) == OnesBelow(a, n) + OnesBelow(b, n)
  {
    if n != 0 {
      DisjointOnesBelow(a, b, n - 1);
      DisjointShift(a, b, n - 1);
      LowOfDisjoint(ShiftRight(a, n - 1), ShiftRight(b, n - 1));
    }
  }
}
