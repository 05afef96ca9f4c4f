/** The check digit of a vehicle identification number (49 CFR 565.15(c)). */
module Vin {
  import opened Text

  const LENGTH: nat := 17

  function Transliterate(c: char): (v: Option<nat>)
    ensures v.Some? ==> v.value <= 9
  {
    if '0' <= c <= '9' then Some((c - '0') as nat)
    else if 'A' <= c <= 'H' then Some((c - 'A') as nat + 1)
    else if 'J' <= c <= 'N' then Some((c - 'J') as nat + 1)
    else if c == 'P' then Some(7)
    else if c == 'R' then Some(9)
    else if 'S' <= c <= 'Z' then Some((c - 'S') as nat + 2)
    else None
  }

  const WEIGHTS: seq<nat> := [8, 7, 6, 5, 4, 3, 2, 10, 0, 9, 8, 7, 6, 5, 4, 3, 2]

  function Weight(i: nat): (w: int)
    requires i < LENGTH
    ensures 0 <= w <= 10 && (w == 0 <==> i == 8)
  {
    WEIGHTS[i]
  }

  function Digit(r: nat): (c: char)
    requires r < 11
    ensures Transliterate(c).Some? && Upper(c) == c
  {
    if r == 10 then 'X' else '0' + r as char
  }

  // ----- the computation -----

  predicate Translatable(vin: string) {
    forall i | 0 <= i < |vin| :: Transliterate(Upper(vin[i])).Some?
  }

  function ValueAt(vin: string, i: nat): (v: nat)
    requires i < |vin| && Translatable(vin)
    ensures v <= 9
  {
    Transliterate(Upper(vin[i])).value
  }

  function Total(vin: string, n: nat): int
    requires n <= |vin| <= LENGTH && Translatable(vin)
  {
    if n == 0 then 0 else Total(vin, n - 1) + ValueAt(vin, n - 1) * Weight(n - 1)
  }

  function CheckDigit(vin: string): Option<char> {
    if |vin| == LENGTH && Translatable(vin) then Some(Digit(Total(vin, LENGTH) % 11)) else None
  }

  method ComputeCheckDigit(vin: string) returns (digit: Option<char>)
    ensures digit == CheckDigit(vin)
  {
    if |vin| != LENGTH {
      return None;
    }
    hide Transliterate, Digit;
    var total := 0;
    var upper := UpperAll(vin);
    for i := 0 to LENGTH
      invariant forall k | 0 <= k < i :: Transliterate(Upper(vin[k])).Some?
      invariant Translatable(vin) ==> total == Total(vin, i)
    {
      var value := Transliterate(upper[i]);
      if value == None {
        assert !Translatable(vin);
        return None;
      }
      total := total + value.value * Weight(i);
    }
    digit := Some(Digit(total % 11));
  }

  /** The flag that decoding stores: the number, stripped and in upper case,
      carries its own check digit in its ninth character. */
  predicate ValidCheckDigit(raw: string) {
    var vin := UpperAll(Strip(raw));
    |vin| == LENGTH && CheckDigit(vin) == Some(vin[8])
  }

  // ----- the standard's form -----

  /** The standard's table: the digits stand for themselves, and every letter but
      I, O and Q for the digit below it. */
  lemma TransliterationTable(i: nat)
    ensures i < 10 ==> Transliterate("0123456789"[i]) == Some(i)
    ensures i < 23 ==> Transliterate("ABCDEFGHJKLMNPRSTUVWXYZ"[i]) == Some(("12345678123457923456789"[i] - '0') as nat)
  {
    if i < 23 {
      LetterTable(i);
    }
  }

  lemma LetterTable(i: nat)
    requires i < 23
    ensures Transliterate("ABCDEFGHJKLMNPRSTUVWXYZ"[i]) == Some(("12345678123457923456789"[i] - '0') as nat)
  {
  }

  lemma NothingElseIsTransliterated(c: char)
    ensures Transliterate(c).Some? ==> c in "0123456789" || c in "ABCDEFGHJKLMNPRSTUVWXYZ"
  {
  }

  /** The standard's sum: seventeen values with their weights, modulo eleven, with
      X for ten. */
  lemma CheckDigitIsTheWeightedSum(vin: string)
    requires |vin| == 17 && Translatable(vin)
    ensures CheckDigit(vin) == Some("0123456789X"[WeightedSum(seq(17, i requires 0 <= i < 17 => ValueAt(vin, i))) % 11])
  {
    hide Transliterate, Translatable, ValueAt, Digit, Total, WeightedSum;
    TotalIsTheWeightedSum(vin);
    DigitTable(Total(vin, 17) % 11);
  }

  function WeightedSum(v: seq<nat>): nat
    requires |v| == 17
  {
    8 * v[0] + 7 * v[1] + 6 * v[2] + 5 * v[3] + 4 * v[4] + 3 * v[5] + 2 * v[6] + 10 * v[7]
    + 9 * v[9] + 8 * v[10] + 7 * v[11] + 6 * v[12] + 5 * v[13] + 4 * v[14] + 3 * v[15] + 2 * v[16]
  }

  lemma TotalIsTheWeightedSum(vin: string)
    requires |vin| == 17 && Translatable(vin)
    ensures Total(vin, 17) == WeightedSum(seq(17, i requires 0 <= i < 17 => ValueAt(vin, i)))
  {
    hide Transliterate, Translatable, ValueAt, Total;
    TotalAfterFour(vin, 0, 8, 7, 6, 5);
    TotalAfterFour(vin, 4, 4, 3, 2, 10);
    TotalAfterFour(vin, 8, 0, 9, 8, 7);
    TotalAfterFour(vin, 12, 6, 5, 4, 3);
    LastTerm(vin);
  }

  lemma LastTerm(vin: string)
    requires |vin| == LENGTH && Translatable(vin)
    ensures Total(vin, 0) == 0 && Total(vin, 17) == Total(vin, 16) + 2 * ValueAt(vin, 16)
  {
  }

  lemma TotalAfterFour(vin: string, n: nat, a: nat, b: nat, c: nat, d: nat)
    requires n + 4 <= |vin| == LENGTH && Translatable(vin)
    requires Weight(n) == a && Weight(n + 1) == b && Weight(n + 2) == c && Weight(n + 3) == d
    ensures Total(vin, n + 4) == Total(vin, n) + a * ValueAt(vin, n) + b * ValueAt(vin, n + 1)
                               + c * ValueAt(vin, n + 2) + d * ValueAt(vin, n + 3)
  {
    hide Transliterate, Translatable, ValueAt, Weight;
    assert Total(vin, n + 1) == Total(vin, n) + ValueAt(vin, n) * a;
    assert Total(vin, n + 2) == Total(vin, n + 1) + ValueAt(vin, n + 1) * b;
    assert Total(vin, n + 3) == Total(vin, n + 2) + ValueAt(vin, n + 2) * c;
  }

  lemma DigitTable(r: nat)
    requires r < 11
    ensures Digit(r) == "0123456789X"[r]
  {
  }

  // ----- one replaced character -----

  lemma UpperTwice(c: char)
    ensures Upper(Upper(c)) == Upper(c)
  {
  }

  lemma UpdateKeepsTranslatable(vin: string, i: nat, c: char)
    requires i < |vin| && Translatable(vin) && Transliterate(Upper(c)).Some?
    ensures Translatable(vin[i := c])
  {
  }

  lemma Spread(v: int, w: int, k: int)
    ensures v * k == (v - w) * k + w * k
  {
  }

  lemma {:induction false} TotalAfterUpdate(vin: string, i: nat, c: char, n: nat)
    requires i < |vin| && n <= |vin| == LENGTH && Translatable(vin) && Transliterate(Upper(c)).Some?
    ensures Translatable(vin[i := c])
    ensures Total(vin[i := c], n)
         == Total(vin, n) + if i < n then (Transliterate(Upper(c)).value - ValueAt(vin, i)) * Weight(i) else 0
  {
    hide Transliterate, Weight;
    UpdateKeepsTranslatable(vin, i, c);
    if n != 0 {
      TotalAfterUpdate(vin, i, c, n - 1);
      if i == n - 1 {
        Spread(Transliterate(Upper(c)).value, ValueAt(vin, i), Weight(i));
      }
    }
  }

  lemma DigitIsInjective(r: nat, s: nat)
    requires r < 11 && s < 11
    ensures Digit(r) == Digit(s) <==> r == s
  {
  }

  /** No product of small factors is a multiple of eleven. */
  lemma ElevenIsPrime(a: int, w: int)
    requires -9 <= a <= 9 && 0 < w <= 10
    ensures (a * w) % 11 == 0 <==> a == 0
  {
    if w == 1 {
    } else if w == 2 {
    } else if w == 3 {
    } else if w == 4 {
    } else if w == 5 {
    } else if w == 6 {
    } else if w == 7 {
    } else if w == 8 {
    } else if w == 9 {
    } else {
      assert w == 10;
    }
  }

  lemma SameRemainder(a: int, b: int)
    ensures a % 11 == b % 11 <==> (a - b) % 11 == 0
  {
  }

  /** Replacing one character leaves the digit alone exactly when it is the ninth
      character or the new one stands for the same value. */
  lemma SubstitutionIsSeen(vin: string, i: nat, c: char)
    requires |vin| == LENGTH && Translatable(vin) && i < LENGTH && Transliterate(Upper(c)).Some?
    ensures CheckDigit(vin[i := c]).Some? && CheckDigit(vin).Some?
    ensures CheckDigit(vin[i := c]) == CheckDigit(vin)
       <==> i == 8 || Transliterate(Upper(c)).value == ValueAt(vin, i)
  {
    hide Transliterate, Digit, Total, Weight;
    TotalAfterUpdate(vin, i, c, LENGTH);
    var a, b := Total(vin[i := c], LENGTH), Total(vin, LENGTH);
    DigitIsInjective(a % 11, b % 11);
    SameRemainder(a, b);
    var d: int := Transliterate(Upper(c)).value - ValueAt(vin, i);
    if i != 8 {
      ElevenIsPrime(d, Weight(i));
    } else {
      assert d * Weight(i) == 0;
    }
  }

  // ----- two exchanged characters -----

  function Exchange(vin: string, i: nat, j: nat): (r: string)
    requires i < |vin| && j < |vin|
    ensures |r| == |vin|
  {
    vin[i := vin[j]][j := vin[i]]
  }

  lemma ElevenAndDifferences(a: int, w: int)
    requires -9 <= a <= 9 && -10 <= w <= 10
    ensures (a * w) % 11 == 0 <==> a == 0 || w == 0
  {
    if w > 0 {
      ElevenIsPrime(a, w);
    } else if w < 0 {
      ElevenIsPrime(-a, -w);
      assert -a * -w == a * w;
    }
  }

  /** Exchanging two characters leaves the digit alone exactly when they stand
      for the same value or their positions have the same weight. */
  lemma ExchangeIsSeen(vin: string, i: nat, j: nat)
    requires |vin| == LENGTH && Translatable(vin) && i < j < LENGTH
    ensures CheckDigit(Exchange(vin, i, j)).Some? && CheckDigit(vin).Some?
    ensures CheckDigit(Exchange(vin, i, j)) == CheckDigit(vin)
       <==> ValueAt(vin, i) == ValueAt(vin, j) || Weight(i) == Weight(j)
  {
    hide Transliterate, Digit, Total, Weight;
    var once := vin[i := vin[j]];
    TotalAfterUpdate(vin, i, vin[j], LENGTH);
    TotalAfterUpdate(once, j, vin[i], LENGTH);
    var a, b := Total(Exchange(vin, i, j), LENGTH), Total(vin, LENGTH);
    DigitIsInjective(a % 11, b % 11);
    SameRemainder(a, b);
    var d: int := ValueAt(vin, j) - ValueAt(vin, i);
    assert ValueAt(once, j) == ValueAt(vin, j);
    Combine(d, Weight(i), Weight(j));
    assert a - b == d * (Weight(i) - Weight(j));
    ElevenAndDifferences(d, Weight(i) - Weight(j));
  }

  lemma Combine(d: int, v: int, w: int)
    ensures d * v + -d * w == d * (v - w)
  {
  }

  lemma NeighboursWeighDifferently(i: nat)
    requires i + 1 < LENGTH && i != 8 && i + 1 != 8
    ensures Weight(i) != Weight(i + 1)
  {
  }

  /** Neighbours other than the ninth character never have the same weight, so
      every slip of two different-valued neighbours is seen. */
  lemma NeighbourSlipIsSeen(vin: string, i: nat)
    requires |vin| == LENGTH && Translatable(vin) && i + 1 < LENGTH && i != 8 && i + 1 != 8
    ensures CheckDigit(Exchange(vin, i, i + 1)) != CheckDigit(vin) <==> ValueAt(vin, i) != ValueAt(vin, i + 1)
  {
    hide Transliterate, Digit, Total, CheckDigit;
    ExchangeIsSeen(vin, i, i + 1);
    NeighboursWeighDifferently(i);
  }

  // ----- validity -----

  lemma UpperKeepsDigit(vin: string)
    ensures CheckDigit(UpperAll(vin)) == CheckDigit(vin)
  {
    hide Transliterate, Digit;
    var u := UpperAll(vin);
    forall i | 0 <= i < |vin| ensures Upper(u[i]) == Upper(vin[i]) {
      UpperTwice(vin[i]);
    }
    assert Translatable(u) == Translatable(vin) by {
      if Translatable(u) {
        forall i | 0 <= i < |vin| ensures Transliterate(Upper(vin[i])).Some? {
          assert Transliterate(Upper(u[i])).Some?;
        }
      }
    }
    if |vin| == LENGTH && Translatable(vin) {
      SameTotal(u, vin, LENGTH);
    }
  }

  lemma {:induction false} SameTotal(u: string, v: string, n: nat)
    requires |u| == |v| == LENGTH && Translatable(u) && Translatable(v) && n <= LENGTH
    requires forall i | 0 <= i < |u| :: Upper(u[i]) == Upper(v[i])
    ensures Total(u, n) == Total(v, n)
  {
    hide Transliterate;
    if n != 0 {
      SameTotal(u, v, n - 1);
      assert Upper(u[n - 1]) == Upper(v[n - 1]);
    }
  }

  lemma TrimmedStays(s: string)
    requires Trimmed(s)
    ensures Strip(s) == s
  {
    hide *;
    StripIs("", s, "");
    assert "" + s + "" == s;
  }

  /** A translatable number has exactly one ninth character (up to case) that
      makes it valid: its computed check digit. */
  lemma ExactlyOneDigitIsValid(vin: string, c: char)
    requires |vin| == LENGTH && Translatable(vin) && Transliterate(Upper(c)).Some?
    ensures CheckDigit(vin).Some?
    ensures ValidCheckDigit(vin[8 := c]) <==> Upper(c) == CheckDigit(vin).value
  {
    hide Transliterate, Digit, Total, CheckDigit, Strip, UpperAll, Trimmed;
    var written := vin[8 := c];
    UpdateKeepsTranslatable(vin, 8, c);
    EndsAreNotSpace(written);
    TrimmedStays(written);
    UpperKeepsDigit(written);
    SubstitutionIsSeen(vin, 8, c);
  }

  lemma EndsAreNotSpace(vin: string)
    requires |vin| == LENGTH && Translatable(vin)
    ensures Trimmed(vin)
  {
    assert Transliterate(Upper(vin[0])).Some? && Transliterate(Upper(vin[16])).Some?;
  }
}
