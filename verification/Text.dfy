/** ASCII text as the parsers treat it: upper case, stripping, splitting. */
module Text {

  datatype Option<+T> = None | Some(value: T)

  function Upper(c: char): char {
    if 'a' <= c <= 'z' then c - 32 as char else c
  }

  function UpperAll(s: string): (r: string)
    ensures |r| == |s|
    ensures forall i | 0 <= i < |s| :: r[i] == Upper(s[i])
  {
    seq(|s|, i requires 0 <= i < |s| => Upper(s[i]))
  }

  /** The characters that Python's strip removes, among those below 128. */
  predicate IsSpace(c: char) {
    c == ' ' || '\t' <= c <= '\r' || 28 as char <= c <= 31 as char
  }

  function StripLeft(s: string): string {
    if s != "" && IsSpace(s[0]) then StripLeft(s[1..]) else s
  }

  function StripRight(s: string): string {
    if s != "" && IsSpace(s[|s| - 1]) then StripRight(s[..|s| - 1]) else s
  }

  function Strip(s: string): string {
    StripRight(StripLeft(s))
  }

  function RemoveSpaces(s: string): string {
    if s == "" then "" else (if s[0] == ' ' then "" else [s[0]]) + RemoveSpaces(s[1..])
  }

  predicate Contains(s: string, token: string) {
    token <= s || (s != "" && Contains(s[1..], token))
  }

  lemma {:induction false} ContainsExactly(s: string, token: string)
    ensures Contains(s, token) <==> exists i | 0 <= i <= |s| :: token <= s[i..]
    decreases |s|
  {
    assert s[0..] == s;
    if s != "" {
      ContainsExactly(s[1..], token);
      assert forall i | 0 <= i <= |s[1..]| :: s[1..][i..] == s[i + 1..];
      if i :| 0 < i <= |s| && token <= s[i..] {
        assert s[1..][i - 1..] == s[i..];
      }
    }
  }

  // ----- what stripping and upper-casing mean -----

  /** The white space of ASCII by its codes. */
  predicate IsBlank(c: char) { c as int in {9, 10, 11, 12, 13, 28, 29, 30, 31, 32} }

  predicate Blank(s: string) {
    forall i | 0 <= i < |s| :: IsBlank(s[i])
  }

  lemma SpaceIsBlank(c: char)
    ensures IsSpace(c) <==> IsBlank(c)
  {
  }

  lemma {:induction false} StripLeftIs(before: string, s: string)
    requires Blank(before) && (s == "" || !IsBlank(s[0]))
    ensures StripLeft(before + s) == s
    decreases |before|
  {
    hide IsSpace, IsBlank;
    if before == "" {
      assert before + s == s;
      if s != "" {
        SpaceIsBlank(s[0]);
      }
    } else {
      SpaceIsBlank(before[0]);
      assert (before + s)[1..] == before[1..] + s;
      StripLeftIs(before[1..], s);
    }
  }

  lemma {:induction false} StripRightIs(s: string, after: string)
    requires Blank(after) && (s == "" || !IsBlank(s[|s| - 1]))
    ensures StripRight(s + after) == s
    decreases |after|
  {
    hide IsSpace, IsBlank;
    if after == "" {
      assert s + after == s;
      if s != "" {
        SpaceIsBlank(s[|s| - 1]);
      }
    } else {
      SpaceIsBlank(after[|after| - 1]);
      assert (s + after)[..|s + after| - 1] == s + after[..|after| - 1];
      StripRightIs(s, after[..|after| - 1]);
    }
  }

  predicate Trimmed(s: string) {
    s == "" || (!IsBlank(s[0]) && !IsBlank(s[|s| - 1]))
  }

  /** Stripping takes white space off both ends and nothing else. */
  lemma StripIs(before: string, s: string, after: string)
    requires Blank(before) && Trimmed(s) && Blank(after)
    ensures Strip(before + s + after) == s
  {
    if s == "" {
      assert before + s + after == (before + after) + s;
      StripLeftIs(before + after, s);
    } else {
      assert before + s + after == before + (s + after);
      StripLeftIs(before, s + after);
      StripRightIs(s, after);
    }
  }

  lemma {:induction false} StripLeftSplits(s: string) returns (before: string)
    ensures Blank(before) && s == before + StripLeft(s)
    ensures StripLeft(s) == "" || !IsBlank(StripLeft(s)[0])
    decreases |s|
  {
    hide IsSpace, IsBlank;
    before := "";
    if s != "" {
      SpaceIsBlank(s[0]);
      if IsSpace(s[0]) {
        var rest := StripLeftSplits(s[1..]);
        before := [s[0]] + rest;
      }
    }
  }

  lemma {:induction false} StripRightSplits(s: string) returns (after: string)
    ensures Blank(after) && s == StripRight(s) + after
    ensures StripRight(s) == "" || !IsBlank(StripRight(s)[|StripRight(s)| - 1])
    decreases |s|
  {
    hide IsSpace, IsBlank;
    after := "";
    if s != "" {
      SpaceIsBlank(s[|s| - 1]);
      if IsSpace(s[|s| - 1]) {
        var rest := StripRightSplits(s[..|s| - 1]);
        after := rest + [s[|s| - 1]];
      }
    }
  }

  /** Every string is what stripping leaves of it, in white space. */
  lemma StripSplits(s: string) returns (before: string, after: string)
    ensures Blank(before) && Trimmed(Strip(s)) && Blank(after)
    ensures s == before + Strip(s) + after
  {
    hide IsBlank;
    before := StripLeftSplits(s);
    after := StripRightSplits(StripLeft(s));
    assert StripLeft(s) == Strip(s) + after;
  }

  /** A letter and its lower-case form, or one character twice. */
  predicate SameLetter(c: char, upper: char) {
    (c == upper && !('a' <= c <= 'z')) || ('A' <= upper <= 'Z' && c as int == upper as int + 32)
  }

  lemma UpperIsSameLetter(c: char, upper: char)
    ensures Upper(c) == upper <==> SameLetter(c, upper)
  {
  }
}
