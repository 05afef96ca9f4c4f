/** The two-byte trouble-code codec of SAE J2012. */
module Dtc {
  import opened NatBits
  import opened Text
  import Elm

  const CATEGORY: string := "PCBU"

  /** Category letter, a digit up to 3, and three hexadecimal digits. */
  function DecodeDtc(hi: byte, lo: byte): (code: string)
    ensures |code| == 5
  {
    [CATEGORY[hi / 64], Elm.HexChar(hi / 16 % 4), Elm.HexChar(hi % 16), Elm.HexChar(lo / 16), Elm.HexChar(lo % 16)]
  }

  /** `BadCode` stands for the exceptions of malformed codes. */
  datatype Encoded = Encoded(hi: byte, lo: byte) | BadCode

  function CategoryIndex(c: char): (i: Option<nat>)
    ensures i.Some? ==> i.value < 4
  {
    if Upper(c) == 'P' then Some(0) else if Upper(c) == 'C' then Some(1)
    else if Upper(c) == 'B' then Some(2) else if Upper(c) == 'U' then Some(3) else None
  }

  predicate IsDigit(c: char) { Elm.IsHexChar(Upper(c)) }

  function DigitValue(c: char): (v: nat)
    requires IsDigit(c)
    ensures v < 16
  {
    Elm.HexValue(Upper(c))
  }

  /** A hexadecimal number in either case; an empty string is an error. */
  function ParseHex(s: string): Option<nat> {
    if s == "" || !IsDigit(s[|s| - 1]) then None
    else if |s| == 1 then Some(DigitValue(s[0]))
    else
      match ParseHex(s[..|s| - 1])
      case None => None
      case Some(v) => Some(v * 16 + DigitValue(s[|s| - 1]))
  }

  /** Digits with single underscores between them, the underscores dropped. */
  function DropUnderscores(s: string): Option<string> {
    if s == "" || s[0] == '_' then None
    else if |s| == 1 then Some(s)
    else
      match DropUnderscores(if s[1] == '_' then s[2..] else s[1..])
      case None => None
      case Some(rest) => Some([s[0]] + rest)
  }

  predicate HasPrefix(s: string) { |s| >= 2 && s[0] == '0' && (s[1] == 'x' || s[1] == 'X') }

  /** What may follow the sign: the prefix is optional, and so is one underscore
      behind it. */
  function ParseUnsigned(s: string): Option<nat> {
    var digits := if !HasPrefix(s) then s else if |s| > 2 && s[2] == '_' then s[3..] else s[2..];
    match DropUnderscores(digits) case None => None case Some(plain) => ParseHex(plain)
  }

  function Signed(negative: bool, v: Option<nat>): Option<int> {
    match v
    case None => None
    case Some(n) => Some(Negated(negative, n))
  }

  function Negated(negative: bool, n: int): int { if negative then -n else n }

  function ParseSigned(s: string): Option<int> {
    if s != "" && (s[0] == '+' || s[0] == '-') then
      Signed(s[0] == '-', ParseUnsigned(s[1..]))
    else
      Signed(false, ParseUnsigned(s))
  }

  /** Everything that Python reads as a hexadecimal number: blanks around it, a
      sign, a prefix and underscores are allowed. */
  function ParseInt16(text: string): Option<int> {
    ParseSigned(Strip(text))
  }

  /** Only the low sixteen bits of the value reach the two bytes; those of a
      negative number are its remainder. */
  function EncodeDtc(code: string): Encoded {
    if |code| < 2 || CategoryIndex(code[0]) == None || !IsDigit(code[1]) || ParseInt16(code[2..]) == None then BadCode
    else
      var cat, first, rest := CategoryIndex(code[0]).value, DigitValue(code[1]), ParseInt16(code[2..]).value;
      var value := Or(Or(cat * 0x4000, first * 0x1000), rest % 0x1_0000);
      Encoded(value / 256 % 256, value % 256)
  }

  // ----- the numbers that are read -----

  lemma DigitTable(c: char, i: nat)
    ensures i < 16 ==> IsDigit("0123456789ABCDEF"[i]) && DigitValue("0123456789ABCDEF"[i]) == i
    ensures i < 16 ==> IsDigit("0123456789abcdef"[i]) && DigitValue("0123456789abcdef"[i]) == i
    ensures IsDigit(c) ==> c in "0123456789ABCDEF" || c in "0123456789abcdef"
  {
  }

  predicate AreDigits(s: string) {
    forall i | 0 <= i < |s| :: IsDigit(s[i])
  }

  /** Every digit with the weight of its place. */
  function Numeral(s: string): nat
    requires AreDigits(s)
  {
    if s == "" then 0 else DigitValue(s[0]) * Pow2(4 * (|s| - 1)) + Numeral(s[1..])
  }

  lemma Sixteenfold(d: nat, k: nat)
    ensures d * Pow2(4 * (k + 1)) == 16 * (d * Pow2(4 * k))
  {
    assert Pow2(4 * k + 4) == 2 * Pow2(4 * k + 3);
    assert Pow2(4 * k + 2) == 2 * Pow2(4 * k + 1);
  }

  lemma {:induction false} NumeralOfMore(s: string, c: char)
    requires AreDigits(s) && IsDigit(c)
    ensures AreDigits(s + [c]) && Numeral(s + [c]) == Numeral(s) * 16 + DigitValue(c)
    decreases |s|
  {
    hide IsDigit, DigitValue, Pow2;
    if s == "" {
      assert s + [c] == [c] && [c][1..] == "";
      assert Pow2(0) == 1 by { NoPlaces(); }
    } else {
      assert (s + [c])[1..] == s[1..] + [c];
      NumeralOfMore(s[1..], c);
      Sixteenfold(DigitValue(s[0]), |s| - 1);
    }
  }

  lemma NoPlaces()
    ensures Pow2(0) == 1
  {
  }

  lemma {:induction false} ParseHexExactly(s: string)
    ensures ParseHex(s) == if s != "" && AreDigits(s) then Some(Numeral(s)) else None
    decreases |s|
  {
    hide IsDigit, DigitValue, Numeral;
    if s != "" {
      var init, last := s[..|s| - 1], s[|s| - 1];
      assert s == init + [last];
      ParseHexExactly(init);
      if AreDigits(init) && IsDigit(last) {
        NumeralOfMore(init, last);
        if init == "" {
          NoNumeral(init);
        }
      }
    }
  }

  lemma NoNumeral(s: string)
    requires s == ""
    ensures Numeral(s) == 0
  {
  }

  function Without(s: string): string {
    if s == "" then "" else (if s[0] == '_' then "" else [s[0]]) + Without(s[1..])
  }

  /** Underscores stand alone between other characters. */
  predicate Separated(s: string) {
    && s != "" && s[0] != '_' && s[|s| - 1] != '_'
    && (forall i | 0 <= i < |s| - 1 :: s[i] != '_' || s[i + 1] != '_')
  }

  lemma {:induction false} DropUnderscoresExactly(s: string)
    ensures DropUnderscores(s) == if Separated(s) then Some(Without(s)) else None
    decreases |s|
  {
    if |s| == 1 {
      assert Without(s[1..]) == "";
      assert [s[0]] + "" == s;
    } else if s != "" && s[0] != '_' {
      var rest := if s[1] == '_' then s[2..] else s[1..];
      DropUnderscoresExactly(rest);
      assert s[1] == '_' ==> Without(s[1..]) == Without(s[1..][1..]) && s[1..][1..] == rest;
      assert rest != "" ==> rest[|rest| - 1] == s[|s| - 1];
      if Separated(s) {
        assert s[1] == '_' ==> |s| > 2 && s[1 + 1] != '_';
      }
    }
  }

  predicate DigitsAndMarks(s: string) {
    forall i | 0 <= i < |s| :: s[i] == '_' || IsDigit(s[i])
  }

  /** Digits in either case with single underscores between them. */
  predicate IsMarked(s: string) {
    Separated(s) && DigitsAndMarks(s)
  }

  lemma FirstAndRest(c: char, s: string)
    ensures AreDigits([c] + s) <==> IsDigit(c) && AreDigits(s)
    ensures DigitsAndMarks([c] + s) <==> (c == '_' || IsDigit(c)) && DigitsAndMarks(s)
  {
    hide IsDigit;
    var t := [c] + s;
    assert t[1..] == s;
    assert AreDigits(t) || DigitsAndMarks(t) ==> c == '_' || IsDigit(t[0]);
    assert forall i | 0 <= i < |s| :: s[i] == t[i + 1];
  }

  lemma {:induction false} MarkedDigits(s: string)
    ensures DigitsAndMarks(s) <==> AreDigits(Without(s))
    decreases |s|
  {
    hide IsDigit, AreDigits, DigitsAndMarks;
    if s != "" {
      MarkedDigits(s[1..]);
      assert s == [s[0]] + s[1..];
      assert s[0] == '_' ==> Without(s) == Without(s[1..]);
      FirstAndRest(s[0], s[1..]);
      FirstAndRest(s[0], Without(s[1..]));
    } else {
      NoDigits(s);
    }
  }

  lemma NoDigits(s: string)
    requires s == ""
    ensures AreDigits(s) && DigitsAndMarks(s)
  {
  }

  lemma MarkedIsRead(s: string)
    ensures (match DropUnderscores(s) case None => None case Some(plain) => ParseHex(plain))
         == if IsMarked(s) then MarkedDigits(s); Some(Numeral(Without(s))) else None
  {
    hide IsDigit, Numeral, DropUnderscores, ParseHex, Without;
    DropUnderscoresExactly(s);
    MarkedDigits(s);
    if Separated(s) {
      ParseHexExactly(Without(s));
      WithoutIsNotEmpty(s);
    }
  }

  lemma WithoutIsNotEmpty(s: string)
    requires s != "" && s[0] != '_'
    ensures Without(s) != ""
  {
  }

  /** How a number may be written: white space, a sign, a prefix that may end in
      an underscore, marked digits, white space. */
  predicate IsWritten(before: string, sign: string, prefix: string, digits: string, after: string) {
    && Blank(before) && sign in ["", "+", "-"] && prefix in ["", "0x", "0X", "0x_", "0X_"]
    && IsMarked(digits) && Blank(after)
  }

  lemma DigitsAfterPrefix(prefix: string, digits: string)
    requires prefix in ["", "0x", "0X", "0x_", "0X_"] && IsMarked(digits)
    ensures AreDigits(Without(digits)) && ParseUnsigned(prefix + digits) == Some(Numeral(Without(digits)))
  {
    hide Numeral, DropUnderscores, ParseHex, Without;
    MarkedIsRead(digits);
    MarkedDigits(digits);
    var s := prefix + digits;
    if prefix == "" {
      assert s == digits;
    } else {
      assert s[|prefix|..] == digits;
      assert digits[0] != '_';
    }
  }

  /** Every number so written is read as its digits' value. */
  lemma WrittenIsRead(before: string, sign: string, prefix: string, digits: string, after: string)
    requires IsWritten(before, sign, prefix, digits, after)
    ensures AreDigits(Without(digits))
    ensures ParseInt16(before + sign + prefix + digits + after)
         == Some(Numeral(Without(digits)) * if sign == "-" then -1 else 1)
  {
    hide Numeral, Without, ParseUnsigned, Strip, Separated;
    DigitsAfterPrefix(prefix, digits);
    var rest := prefix + digits;
    var core := sign + rest;
    CoreIsTrimmed(sign, prefix, digits);
    StripIs(before, core, after);
    assert before + sign + prefix + digits + after == before + core + after;
    if sign != "" {
      assert core[1..] == rest;
    } else {
      assert core == rest;
    }
  }

  lemma CoreIsTrimmed(sign: string, prefix: string, digits: string)
    requires sign in ["", "+", "-"] && prefix in ["", "0x", "0X", "0x_", "0X_"] && IsMarked(digits)
    ensures Trimmed(sign + (prefix + digits))
    ensures (prefix + digits)[0] != '+' && (prefix + digits)[0] != '-'
  {
    hide IsDigit;
    DigitIsPlain(digits[0]);
    DigitIsPlain(digits[|digits| - 1]);
    SpaceIsBlank(digits[0]);
    SpaceIsBlank(digits[|digits| - 1]);
  }

  lemma UnsignedIsWritten(s: string) returns (prefix: string, digits: string)
    requires ParseUnsigned(s).Some?
    ensures s == prefix + digits && prefix in ["", "0x", "0X", "0x_", "0X_"] && IsMarked(digits)
  {
    hide IsDigit, DropUnderscores, ParseHex, IsMarked;
    prefix := if !HasPrefix(s) then "" else if |s| > 2 && s[2] == '_' then s[..3] else s[..2];
    digits := s[|prefix|..];
    assert HasPrefix(s) ==> s[..2] == ['0', s[1]];
    assert HasPrefix(s) && |s| > 2 ==> s[..3] == ['0', s[1], s[2]];
    MarkedIsRead(digits);
  }

  lemma SignedIsWritten(s: string) returns (sign: string, prefix: string, digits: string)
    requires ParseSigned(s).Some?
    ensures s == sign + prefix + digits && sign in ["", "+", "-"]
    ensures prefix in ["", "0x", "0X", "0x_", "0X_"] && IsMarked(digits)
  {
    hide ParseUnsigned, IsMarked;
    if s != "" && (s[0] == '+' || s[0] == '-') {
      prefix, digits := UnsignedIsWritten(s[1..]);
      sign := [s[0]];
    } else {
      prefix, digits := UnsignedIsWritten(s);
      sign := "";
    }
  }

  /** Nothing else is read. */
  lemma ReadIsWritten(text: string)
    returns (before: string, sign: string, prefix: string, digits: string, after: string)
    requires ParseInt16(text).Some?
    ensures IsWritten(before, sign, prefix, digits, after)
    ensures text == before + sign + prefix + digits + after
  {
    hide ParseSigned, Strip, Blank, Trimmed, IsMarked;
    before, after := StripSplits(text);
    sign, prefix, digits := SignedIsWritten(Strip(text));
    assert before + (sign + prefix + digits) + after == before + sign + prefix + digits + after;
  }

  // ----- inverses -----

  /** Fields that do not overlap are added. */
  lemma {:induction false} OrOfFields(high: nat, low: nat, k: nat)
    requires low < Pow2(k)
    ensures Or(high * Pow2(k), low) == high * Pow2(k) + low
    decreases k
  {
    if k != 0 {
      Halve(high, Pow2(k - 1));
      OrOfFields(high, low / 2, k - 1);
    }
  }

  lemma Halve(high: nat, p: nat)
    ensures high * (2 * p) == 2 * (high * p)
    ensures high * (2 * p) / 2 == high * p && high * (2 * p) % 2 == 0
  {
  }

  lemma FieldSizes()
    ensures Pow2(12) == 0x1000 && Pow2(14) == 0x4000
  {
    assert Pow2(4) == 16 && Pow2(8) == 256;
  }

  /** The display form: five characters, a first digit up to 3. */
  predicate IsDisplayCode(code: string) {
    |code| == 5 && CategoryIndex(code[0]).Some? && IsDigit(code[1]) && DigitValue(code[1]) < 4
    && IsDigit(code[2]) && IsDigit(code[3]) && IsDigit(code[4])
  }

  lemma ThreeDigits(s: string)
    requires |s| == 3 && IsDigit(s[0]) && IsDigit(s[1]) && IsDigit(s[2])
    ensures ParseHex(s) == Some(DigitValue(s[0]) * 256 + DigitValue(s[1]) * 16 + DigitValue(s[2]))
  {
    hide IsDigit, DigitValue;
    assert s[..2][..1] == s[..1] == [s[0]];
    assert ParseHex([s[0]]) == Some(DigitValue(s[0]));
    assert ParseHex(s[..2]) == Some(DigitValue(s[0]) * 16 + DigitValue(s[1]));
  }

  lemma PlainDigits(s: string)
    requires |s| == 3 && IsDigit(s[0]) && IsDigit(s[1]) && IsDigit(s[2])
    ensures Strip(s) == s && DropUnderscores(s) == Some(s) && !HasPrefix(s) && s[0] != '+' && s[0] != '-'
  {
    DigitIsPlain(s[0]);
    DigitIsPlain(s[1]);
    DigitIsPlain(s[2]);
    hide IsDigit, IsSpace;
    assert StripLeft(s) == s && StripRight(s) == s;
    assert s[2..] == [s[2]] && s[1..][1..] == s[2..];
    assert DropUnderscores(s[2..]) == Some([s[2]]);
    assert DropUnderscores(s[1..]) == Some([s[1]] + [s[2]]);
    assert [s[0]] + ([s[1]] + [s[2]]) == s;
  }

  lemma DigitIsPlain(c: char)
    requires IsDigit(c)
    ensures !IsSpace(c) && c != '_' && c != '+' && c != '-' && c != 'x' && c != 'X'
  {
  }

  /** Three plain digits are read as they stand. */
  lemma ThreePlainDigits(s: string)
    requires |s| == 3 && IsDigit(s[0]) && IsDigit(s[1]) && IsDigit(s[2])
    ensures ParseInt16(s) == Some(DigitValue(s[0]) * 256 + DigitValue(s[1]) * 16 + DigitValue(s[2]))
  {
    hide IsDigit, DigitValue, Strip, DropUnderscores, HasPrefix, ParseHex;
    PlainDigits(s);
    ThreeDigits(s);
  }

  lemma EncodedFields(code: string)
    requires IsDisplayCode(code)
    ensures EncodeDtc(code)
         == Encoded(CategoryIndex(code[0]).value * 64 + DigitValue(code[1]) * 16 + DigitValue(code[2]),
                    DigitValue(code[3]) * 16 + DigitValue(code[4]))
  {
    hide CategoryIndex, IsDigit, DigitValue, Or, Pow2, ParseInt16;
    var cat, first := CategoryIndex(code[0]).value, DigitValue(code[1]);
    ThreePlainDigits(code[2..]);
    var rest := ParseInt16(code[2..]).value;
    FieldSizes();
    OrOfFields(cat, first * 0x1000, 14);
    OrOfFields(cat * 4 + first, rest, 12);
    BytesOfFields(cat, first, DigitValue(code[2]), DigitValue(code[3]), DigitValue(code[4]));
  }

  lemma BytesOfFields(cat: nat, first: nat, a: nat, b: nat, c: nat)
    requires cat < 4 && first < 4 && a < 16 && b < 16 && c < 16
    ensures var v := cat * 0x4000 + first * 0x1000 + (a * 256 + b * 16 + c);
      v / 256 % 256 == cat * 64 + first * 16 + a && v % 256 == b * 16 + c
  {
    var hi, lo := cat * 64 + first * 16 + a, b * 16 + c;
    assert cat * 0x4000 + first * 0x1000 + (a * 256 + b * 16 + c) == hi * 256 + lo;
  }

  lemma FieldsOfBytes(cat: nat, first: nat, a: nat)
    requires cat < 4 && first < 4 && a < 16
    ensures var hi := cat * 64 + first * 16 + a;
      hi / 64 == cat && hi / 16 % 4 == first && hi % 16 == a
  {
    assert (cat * 64 + first * 16 + a) / 16 == cat * 4 + first;
  }

  lemma UpperOfHex(v: nat)
    requires v < 16
    ensures Upper(Elm.HexChar(v)) == Elm.HexChar(v) && IsDigit(Elm.HexChar(v)) && DigitValue(Elm.HexChar(v)) == v
  {
  }

  lemma HexOfDigit(c: char)
    requires IsDigit(c)
    ensures Elm.HexChar(DigitValue(c)) == Upper(c)
  {
  }

  /** Encoding undoes decoding on all byte pairs. */
  lemma EncodeDecode(hi: byte, lo: byte)
    ensures IsDisplayCode(DecodeDtc(hi, lo)) && EncodeDtc(DecodeDtc(hi, lo)) == Encoded(hi, lo)
  {
    var code := DecodeDtc(hi, lo);
    assert CategoryIndex(code[0]) == Some(hi / 64);
    hide CategoryIndex, IsDigit, DigitValue;
    UpperOfHex(hi / 16 % 4);
    UpperOfHex(hi % 16);
    UpperOfHex(lo / 16);
    UpperOfHex(lo % 16);
    EncodedFields(code);
    assert hi / 16 / 4 == hi / 64;
  }

  /** Decoding undoes encoding, up to case, exactly on the display codes. */
  lemma DecodeEncode(code: string)
    requires EncodeDtc(code).Encoded?
    ensures var e := EncodeDtc(code); DecodeDtc(e.hi, e.lo) == UpperAll(code) <==> IsDisplayCode(code)
  {
    hide Or;
    var e := EncodeDtc(code);
    if IsDisplayCode(code) {
      DisplayCodeDecodes(code);
    }
    if DecodeDtc(e.hi, e.lo) == UpperAll(code) {
      var back := DecodeDtc(e.hi, e.lo);
      EncodeDecode(e.hi, e.lo);
      SameUpper(code, back);
    }
  }

  /** A first digit above 3 spills into the category: the code comes back as
      another one. */
  lemma FirstDigitSpills()
    ensures EncodeDtc("P4000") == Encoded(0x40, 0x00) && DecodeDtc(0x40, 0x00) == "C0000"
  {
    hide ParseInt16, IsDigit, DigitValue, CategoryIndex;
    SpilledFields();
    ThreePlainDigits("000");
    assert "P4000"[2..] == "000";
  }

  lemma SpilledFields()
    ensures CategoryIndex('P') == Some(0) && IsDigit('4') && DigitValue('4') == 4
    ensures IsDigit('0') && DigitValue('0') == 0
  {
  }

  lemma SameUpper(code: string, back: string)
    requires IsDisplayCode(back) && UpperAll(code) == back
    ensures IsDisplayCode(code)
  {
    assert |code| == 5;
    forall i | 0 <= i < 5 ensures Upper(code[i]) == back[i] == Upper(back[i]) {
      assert UpperAll(code)[i] == Upper(code[i]);
    }
  }

  lemma DisplayCodeDecodes(code: string)
    requires IsDisplayCode(code)
    ensures EncodeDtc(code).Encoded?
    ensures DecodeDtc(EncodeDtc(code).hi, EncodeDtc(code).lo) == UpperAll(code)
  {
    hide CategoryIndex, IsDigit, DigitValue, EncodeDtc, DecodeDtc, Elm.HexChar, Upper;
    EncodedFields(code);
    CategoryOfIndex(code[0]);
    var cat, a := CategoryIndex(code[0]).value, DigitValue(code[1]);
    var b, c, d := DigitValue(code[2]), DigitValue(code[3]), DigitValue(code[4]);
    HexOfDigit(code[1]);
    HexOfDigit(code[2]);
    HexOfDigit(code[3]);
    HexOfDigit(code[4]);
    DecodeOfFields(cat, a, b, c, d);
    assert UpperAll(code) == [Upper(code[0]), Upper(code[1]), Upper(code[2]), Upper(code[3]), Upper(code[4])];
  }

  lemma DecodeOfFields(cat: nat, a: nat, b: nat, c: nat, d: nat)
    requires cat < 4 && a < 4 && b < 16 && c < 16 && d < 16
    ensures DecodeDtc(cat * 64 + a * 16 + b, c * 16 + d)
         == [CATEGORY[cat], Elm.HexChar(a), Elm.HexChar(b), Elm.HexChar(c), Elm.HexChar(d)]
  {
    hide Elm.HexChar;
    FieldsOfBytes(cat, a, b);
    TwoNibbles(c, d);
  }

  lemma TwoNibbles(c: nat, d: nat)
    requires c < 16 && d < 16
    ensures (c * 16 + d) / 16 == c && (c * 16 + d) % 16 == d
  {
  }

  lemma CategoryOfIndex(c: char)
    requires CategoryIndex(c).Some?
    ensures CATEGORY[CategoryIndex(c).value] == Upper(c)
  {
  }

  // ----- the sixteen bits of every accepted code -----

  lemma {:induction false} BitOfMultiple(x: nat, n: nat, k: nat)
    ensures Bit(x * Pow2(n), k) <==> n <= k && Bit(x, k - n)
    decreases n
  {
    if n != 0 {
      Halve(x, Pow2(n - 1));
      if k != 0 {
        BitOfMultiple(x, n - 1, k - 1);
      }
    }
  }

  lemma {:induction false} BitOfRemainder(x: nat, n: nat, k: nat)
    requires k < n
    ensures Bit(x % Pow2(n), k) <==> Bit(x, k)
    decreases n
  {
    HalfOfRemainder(x, Pow2(n - 1));
    if k != 0 {
      BitOfRemainder(x / 2, n - 1, k - 1);
    }
  }

  lemma HalfOfRemainder(x: nat, p: nat)
    requires p > 0
    ensures x % (2 * p) / 2 == x / 2 % p && x % (2 * p) % 2 == x % 2
  {
    var q, r := x / 2 / p, x / 2 % p;
    assert x / 2 == q * p + r;
    assert x == q * (2 * p) + (2 * r + x % 2);
    RemainderIs(x, 2 * p, q, 2 * r + x % 2);
  }

  lemma RemainderIs(x: nat, m: nat, q: nat, r: nat)
    requires r < m && x == q * m + r
    ensures x % m == r
  {
    var d := x / m - q;
    Distribute(x / m, q, m);
    assert r - x % m == d * m;
    SmallMultiple(d, m);
  }

  lemma Distribute(a: int, b: int, m: int)
    ensures (a - b) * m == a * m - b * m
  {
  }

  lemma SmallMultiple(d: int, m: int)
    requires -m < d * m < m
    ensures d == 0
  {
    if d > 0 {
      Distribute(d, 1, m);
      AtLeastZero(d - 1, m);
    } else if d < 0 {
      Distribute(-1, d, m);
      AtLeastZero(-1 - d, m);
    }
  }

  lemma AtLeastZero(a: nat, b: int)
    requires b > 0
    ensures a * b >= 0
  {
  }

  /** Every accepted code, in display form or not: a bit of the two bytes is set
      exactly when the category, the first digit or the low sixteen bits of the
      number set it. */
  lemma EncodedBit(code: string, k: nat)
    requires EncodeDtc(code).Encoded? && k < 16
    ensures |code| >= 2 && CategoryIndex(code[0]).Some? && IsDigit(code[1]) && ParseInt16(code[2..]).Some?
    ensures Bit(EncodeDtc(code).hi * 256 + EncodeDtc(code).lo, k)
       <==> Bit(ParseInt16(code[2..]).value % 0x1_0000, k)
            || (12 <= k && Bit(DigitValue(code[1]), k - 12))
            || (14 <= k && Bit(CategoryIndex(code[0]).value, k - 14))
  {
    hide CategoryIndex, IsDigit, DigitValue, Or, Bit, Pow2, ParseInt16;
    var cat, first, rest := CategoryIndex(code[0]).value, DigitValue(code[1]), ParseInt16(code[2..]).value % 0x1_0000;
    var value := Or(Or(cat * 0x4000, first * 0x1000), rest);
    FieldSizes();
    BitOfOr(Or(cat * 0x4000, first * 0x1000), rest, k);
    BitOfOr(cat * 0x4000, first * 0x1000, k);
    BitOfMultiple(cat, 14, k);
    BitOfMultiple(first, 12, k);
    LowBytes(value);
    BitOfRemainder(value, 16, k);
  }

  lemma LowBytes(value: nat)
    ensures value / 256 % 256 * 256 + value % 256 == value % Pow2(16)
  {
    assert Pow2(8) == 256;
    assert Pow2(12) == 0x1000;
    assert value == value / 256 / 256 * 0x1_0000 + (value / 256 % 256 * 256 + value % 256);
  }
}
