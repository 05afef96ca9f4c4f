/** Printing ISO-TP frames as ELM327 lines, and the proof that the parser undoes
    printing, interleaving and noise. */
module ElmRoundTrip {
  import opened NatBits
  import opened Text
  import opened IsoTp
  import opened Elm

  // ----- printing -----

  function PrintBytes(b: Bytes): (s: string)
    ensures |s| == 2 * |b| && IsHex(s)
  {
    if b == [] then "" else [HexChar(b[0] / 16), HexChar(b[0] % 16)] + PrintBytes(b[1..])
  }

  /** Three nibbles of source id, then the frame. */
  function PrintFrame(f: Frame): (s: string)
    requires f.source < 0x1000
    ensures |s| == 3 + 2 * |f.bytes| && IsHex(s)
  {
    [HexChar(f.source / 256), HexChar(f.source / 16 % 16), HexChar(f.source % 16)] + PrintBytes(f.bytes)
  }

  lemma {:induction false} FromHexOfPrint(b: Bytes)
    ensures FromHex(PrintBytes(b)) == Some(b)
  {
    if b != [] {
      var s := PrintBytes(b);
      assert s[2..] == PrintBytes(b[1..]);
      FromHexOfPrint(b[1..]);
      assert HexValue(s[0]) == b[0] / 16 && HexValue(s[1]) == b[0] % 16;
      assert [b[0]] + b[1..] == b;
    }
  }

  // ----- what a line says -----

  lemma PrefixShares(s: string, token: string, i: nat)
    requires token <= s && i < |token|
    ensures i < |s| && s[i] == token[i]
  {
  }

  lemma {:induction false} HexHasNoToken(s: string, token: string, i: nat)
    requires IsHex(s) && i < |token| && !IsHexChar(token[i])
    ensures !Contains(s, token)
    decreases |s|
  {
    if token <= s {
      PrefixShares(s, token, i);
    }
    if s != "" {
      HexHasNoToken(s[1..], token, i);
    }
  }

  /** Every status token has a letter that is no hexadecimal digit, so the token
      filter never drops a line that the hexadecimal test would keep. */
  lemma TokenFilterIsRedundant(s: string)
    requires HasToken(s)
    ensures !IsHex(s)
  {
    if IsHex(s) {
      HexHasNoToken(s, TOKENS[0], 0);
      HexHasNoToken(s, TOKENS[1], 0);
      HexHasNoToken(s, TOKENS[2], 0);
      HexHasNoToken(s, TOKENS[3], 1);
      HexHasNoToken(s, TOKENS[4], 0);
      HexHasNoToken(s, TOKENS[5], 0);
    }
  }

  lemma TailIsHex(s: string)
    requires |s| >= 4 && IsHex(s)
    ensures IsHex(s[3..]) && IsHex(s[..3])
  {
  }

  lemma CharOfValue(c: char)
    requires IsHexChar(c)
    ensures HexChar(HexValue(c)) == c
  {
  }

  lemma {:induction false} PrintOfFromHex(s: string)
    requires IsHex(s) && FromHex(s).Some?
    ensures PrintBytes(FromHex(s).value) == s
    decreases |s|
  {
    hide HexChar, HexValue;
    if s != "" {
      PrintOfFromHex(s[2..]);
      CharOfValue(s[0]);
      CharOfValue(s[1]);
      NibblesOfByte(HexValue(s[0]), HexValue(s[1]));
      var b := FromHex(s).value;
      assert b[1..] == FromHex(s[2..]).value;
      assert s == [s[0], s[1]] + s[2..];
    }
  }

  lemma NibblesOfByte(a: nat, b: nat)
    requires a < 16 && b < 16
    ensures (a * 16 + b) / 16 == a && (a * 16 + b) % 16 == b
  {
  }

  lemma NibblesOfSource(n: nat)
    requires n < 0x1000
    ensures n / 256 < 16 && n == n / 256 * 256 + n / 16 % 16 * 16 + n % 16
  {
    assert n / 256 == n / 16 / 16;
  }

  lemma SourceOfNibbles(a: nat, b: nat, c: nat)
    requires a < 16 && b < 16 && c < 16
    ensures var n := a * 256 + b * 16 + c; n < 0x1000 && n / 256 == a && n / 16 % 16 == b && n % 16 == c
  {
    assert (a * 256 + b * 16 + c) / 16 == a * 16 + b;
  }

  lemma PrintOfSource(s: string)
    requires |s| == 3 && IsHex(s)
    ensures var n := SourceId(s);
      n < 0x1000 && [HexChar(n / 256), HexChar(n / 16 % 16), HexChar(n % 16)] == s
  {
    hide HexChar, HexValue;
    SourceOfNibbles(HexValue(s[0]), HexValue(s[1]), HexValue(s[2]));
    CharOfValue(s[0]);
    CharOfValue(s[1]);
    CharOfValue(s[2]);
  }

  /** A normal form is parsed to a frame exactly when it prints that frame. */
  lemma NormalFormParsesExactly(line: string, f: Frame)
    ensures ParseLine(line) == Some(f)
       <==> f.source < 0x1000 && f.bytes != [] && Normal(line) == PrintFrame(f)
  {
    hide Normal, HasToken, FromHex, Contains, SourceId;
    var s := Normal(line);
    if HasToken(s) {
      TokenFilterIsRedundant(s);
    }
    if |s| >= 4 && IsHex(s) {
      TailIsHex(s);
      PrintOfSource(s[..3]);
      if FromHex(s[3..]).Some? {
        PrintOfFromHex(s[3..]);
        assert s == s[..3] + s[3..];
        EmptyPrint(FromHex(s[3..]).value);
      }
    }
    if f.source < 0x1000 && f.bytes != [] && s == PrintFrame(f) {
      assert s[3..] == PrintBytes(f.bytes);
      FromHexOfPrint(f.bytes);
      SourceOfPrint(s, f);
    }
  }

  lemma EmptyPrint(b: Bytes)
    ensures b == [] <==> PrintBytes(b) == ""
  {
  }

  lemma SourceOfPrint(s: string, f: Frame)
    requires f.source < 0x1000 && s == PrintFrame(f)
    ensures SourceId(s[..3]) == f.source
  {
    NibblesOfSource(f.source);
    assert s[..3] == [HexChar(f.source / 256), HexChar(f.source / 16 % 16), HexChar(f.source % 16)];
  }

  // ----- what a line shows -----

  /** The text in either case, with blanks anywhere in it. */
  predicate Spells(line: string, s: string) {
    if line == "" then s == ""
    else if line[0] == ' ' then Spells(line[1..], s)
    else s != "" && SameLetter(line[0], s[0]) && Spells(line[1..], s[1..])
  }

  /** The same inside any white space. */
  ghost predicate Reads(line: string, s: string) {
    exists a, b | 0 <= a <= b <= |line| :: Blank(line[..a]) && Blank(line[b..]) && Spells(line[a..b], s)
  }

  /** The line shows the frame, in either case and with any blanks. */
  ghost predicate Shows(line: string, f: Frame) {
    f.source < 0x1000 && f.bytes != [] && Reads(line, PrintFrame(f))
  }

  lemma {:induction false} SpelledIsUpper(line: string, s: string)
    ensures Spells(line, s) <==> UpperAll(RemoveSpaces(line)) == s
    decreases |line|
  {
    hide SameLetter, Upper;
    if line != "" {
      var rest := RemoveSpaces(line[1..]);
      if line[0] == ' ' {
        SpelledIsUpper(line[1..], s);
      } else {
        assert UpperAll([line[0]] + rest) == [Upper(line[0])] + UpperAll(rest);
        if s != "" {
          SpelledIsUpper(line[1..], s[1..]);
          UpperIsSameLetter(line[0], s[0]);
          assert s == [s[0]] + s[1..];
        }
      }
    }
  }

  lemma {:induction false} SpellsLast(line: string, c: char, s: string)
    requires Spells(line + [c], s)
    ensures if c == ' ' then Spells(line, s) else s != "" && SameLetter(c, s[|s| - 1])
    decreases |line|
  {
    hide SameLetter;
    if line != "" {
      assert (line + [c])[1..] == line[1..] + [c];
      SpellsLast(line[1..], c, if line[0] == ' ' then s else s[1..]);
    } else {
      assert (line + [c])[1..] == "";
    }
  }

  lemma HexIsNotBlank(c: char, upper: char)
    requires SameLetter(c, upper) && IsHexChar(upper)
    ensures !IsBlank(c)
  {
  }

  /** Blanks at either end of a spelling can go. */
  lemma {:induction false} TrimSpelling(line: string, s: string) returns (before: string, core: string, after: string)
    requires Spells(line, s) && IsHex(s) && s != ""
    ensures line == before + core + after && Blank(before) && Blank(after) && Trimmed(core) && Spells(core, s)
    decreases |line|
  {
    hide SameLetter, IsHexChar;
    var c := line[|line| - 1];
    assert line == line[..|line| - 1] + [c];
    SpellsLast(line[..|line| - 1], c, s);
    if line[0] == ' ' {
      before, core, after := TrimSpelling(line[1..], s);
      before := " " + before;
      assert line == " " + line[1..];
    } else if c == ' ' {
      before, core, after := TrimSpelling(line[..|line| - 1], s);
      after := after + " ";
    } else {
      before, core, after := "", line, "";
      HexIsNotBlank(line[0], s[0]);
      HexIsNotBlank(c, s[|s| - 1]);
    }
  }

  /** The normal form of a line is what the line reads. */
  lemma NormalIsWhatIsRead(line: string, s: string)
    requires IsHex(s) && s != ""
    ensures Normal(line) == s <==> Reads(line, s)
  {
    hide Strip, RemoveSpaces, Spells, IsBlank, UpperAll, Trimmed, IsHex;
    SpelledIsUpper(Strip(line), s);
    if Normal(line) == s {
      var before, after := StripSplits(line);
      var a, b := |before|, |line| - |after|;
      assert line[..a] == before && line[b..] == after && line[a..b] == Strip(line);
    }
    if Reads(line, s) {
      var a, b :| 0 <= a <= b <= |line| && Blank(line[..a]) && Blank(line[b..]) && Spells(line[a..b], s);
      var before, core, after := TrimSpelling(line[a..b], s);
      assert line == (line[..a] + before) + core + (after + line[b..]);
      StripIs(line[..a] + before, core, after + line[b..]);
    }
  }

  /** The parser reads a line as a frame exactly when the line shows it. */
  lemma LineParsesExactly(line: string, f: Frame)
    ensures ParseLine(line) == Some(f) <==> Shows(line, f)
  {
    hide ParseLine, Normal, Reads;
    NormalFormParsesExactly(line, f);
    if f.source < 0x1000 {
      NormalIsWhatIsRead(line, PrintFrame(f));
    }
  }

  /** Noise is what shows no frame. */
  ghost predicate Noise(line: string) {
    forall f :: !Shows(line, f)
  }

  lemma {:induction false} FromHexFailsOnOdd(s: string)
    requires IsHex(s)
    ensures FromHex(s) == None <==> |s| % 2 == 1
    ensures FromHex(s).Some? ==> |FromHex(s).value| == |s| / 2
    decreases |s|
  {
    if |s| >= 2 {
      FromHexFailsOnOdd(s[2..]);
    }
  }

  /** The parser skips exactly the noise: after stripping, dropping blanks and
      upper-casing, a line that is too short, has a character that is no
      hexadecimal digit, or leaves half a byte over. */
  lemma NoiseIsSkippedExactly(line: string)
    ensures ParseLine(line) == None <==> Noise(line)
    ensures Noise(line) <==> var s := Normal(line); |s| < 4 || !IsHex(s) || |s| % 2 == 0
  {
    hide Normal, IsHex, FromHex, HasToken, Shows;
    forall f ensures ParseLine(line) == Some(f) <==> Shows(line, f) {
      LineParsesExactly(line, f);
    }
    if ParseLine(line).Some? {
      assert Shows(line, ParseLine(line).value);
    }
    var s := Normal(line);
    if HasToken(s) {
      TokenFilterIsRedundant(s);
    }
    if |s| >= 4 && IsHex(s) {
      TailIsHex(s);
      FromHexFailsOnOdd(s[3..]);
    }
  }

  // ----- a printed frame shows itself -----

  lemma {:induction false} HexSpellsItself(s: string)
    requires IsHex(s)
    ensures Spells(s, s)
  {
    if s != "" {
      assert IsHexChar(s[0]);
      HexSpellsItself(s[1..]);
    }
  }

  lemma PrintedLineShows(f: Frame)
    requires f.source < 0x1000 && f.bytes != []
    ensures Shows(PrintFrame(f), f)
  {
    hide Spells, PrintFrame;
    var s := PrintFrame(f);
    HexSpellsItself(s);
    assert s[..0] == "" && s[|s|..] == "" && s[0..|s|] == s;
  }

  // ----- the transcript -----

  /** The lines show these frames in this order, with noise anywhere between. */
  ghost predicate Carries(lines: seq<string>, frames: seq<Frame>)
    decreases |lines|
  {
    if lines == [] then frames == []
    else
      var init, last := lines[..|lines| - 1], lines[|lines| - 1];
      || (Noise(last) && Carries(init, frames))
      || (frames != [] && Shows(last, frames[|frames| - 1]) && Carries(init, frames[..|frames| - 1]))
  }

  lemma {:induction false} CarriedFramesAreParsed(lines: seq<string>, frames: seq<Frame>)
    requires Carries(lines, frames)
    ensures ParsedFrames(lines) == frames
    decreases |lines|
  {
    hide Noise, Shows, ParseLine;
    if lines != [] {
      var init, last := lines[..|lines| - 1], lines[|lines| - 1];
      if Noise(last) && Carries(init, frames) {
        NoiseIsSkippedExactly(last);
        CarriedFramesAreParsed(init, frames);
      } else {
        LineParsesExactly(last, frames[|frames| - 1]);
        CarriedFramesAreParsed(init, frames[..|frames| - 1]);
        assert frames == frames[..|frames| - 1] + [frames[|frames| - 1]];
      }
    }
  }

  predicate OneLine(line: string) {
    forall i | 0 <= i < |line| :: line[i] !in "\r\n"
  }

  /** The lines with any terminators between them. */
  function Join(lines: seq<string>, terminators: string): string
    requires lines != [] && |terminators| == |lines| - 1
  {
    if |lines| == 1 then lines[0] else lines[0] + [terminators[0]] + Join(lines[1..], terminators[1..])
  }

  lemma {:induction false} LinesOfPrefix(line: string, rest: string)
    requires OneLine(line)
    ensures Lines(line + rest) == [line + Lines(rest)[0]] + Lines(rest)[1..]
    decreases |line|
  {
    if line == "" {
      assert line + rest == rest;
      assert line + Lines(rest)[0] == Lines(rest)[0];
    } else {
      LinesOfPrefix(line[1..], rest);
      assert (line + rest)[1..] == line[1..] + rest;
      assert [line[0]] + (line[1..] + Lines(rest)[0]) == line + Lines(rest)[0];
    }
  }

  lemma {:induction false} LinesOfJoin(lines: seq<string>, terminators: string)
    requires lines != [] && |terminators| == |lines| - 1
    requires forall i | 0 <= i < |lines| :: OneLine(lines[i])
    requires forall i | 0 <= i < |terminators| :: terminators[i] in "\r\n"
    ensures Lines(Join(lines, terminators)) == lines
    decreases |lines|
  {
    if |lines| == 1 {
      LinesOfPrefix(lines[0], "");
      assert lines[0] + "" == lines[0];
    } else {
      var rest := Join(lines[1..], terminators[1..]);
      LinesOfJoin(lines[1..], terminators[1..]);
      var tail := [terminators[0]] + rest;
      assert tail[1..] == rest;
      assert Lines(tail) == [""] + lines[1..];
      LinesOfPrefix(lines[0], tail);
      assert lines[0] + [terminators[0]] + rest == lines[0] + tail;
      assert lines[0] + "" == lines[0];
      assert lines == [lines[0]] + lines[1..];
    }
  }

  // ----- several ECUs -----

  type Traffic = map<nat, Message>

  /** Distinct three-nibble sources, each with a payload of 1 to 4095 bytes. */
  predicate Sendable(traffic: Traffic) {
    forall s | s in traffic :: s < 0x1000 && 1 <= |traffic[s].payload| <= 4095
  }

  /** The frames are a merge of the ECUs' segmented messages that keeps every
      ECU's own order: leaving out the frames of all others gives its segments. */
  ghost predicate Merges(frames: seq<Frame>, traffic: Traffic)
    requires Sendable(traffic)
  {
    && (forall i | 0 <= i < |frames| :: frames[i].source in traffic)
    && (forall s | s in traffic :: FramesOf(frames, s) == Segment(traffic[s]))
  }

  function Delivered(traffic: Traffic, sources: seq<nat>): (list: seq<EcuResponse>)
    requires forall s | s in sources :: s in traffic
    ensures |list| == |sources|
  {
    seq(|sources|, i requires 0 <= i < |sources| => EcuResponse(sources[i], traffic[sources[i]].payload))
  }

  lemma {:induction false} CollectDelivers(frames: seq<Frame>, traffic: Traffic, sources: seq<nat>)
    requires Sendable(traffic) && Merges(frames, traffic)
    requires forall s | s in sources :: s in traffic
    ensures Collect(frames, sources) == Responses(Delivered(traffic, sources))
    decreases |sources|
  {
    hide Reassemble, Segment;
    if sources != [] {
      var init, last := sources[..|sources| - 1], sources[|sources| - 1];
      assert last in sources;
      CollectDelivers(frames, traffic, init);
      ReassembleSegment(traffic[last]);
      assert Delivered(traffic, sources) == Delivered(traffic, init) + [EcuResponse(last, traffic[last].payload)];
    }
  }

  /** The sources are those of the frames, without repetition. */
  lemma {:induction false} SourcesAreDistinct(frames: seq<Frame>)
    ensures forall s :: s in Sources(frames) <==> exists i | 0 <= i < |frames| :: frames[i].source == s
    ensures forall i, j | 0 <= i < j < |Sources(frames)| :: Sources(frames)[i] != Sources(frames)[j]
    ensures forall s: nat :: s in Sources(frames) <==> FramesOf(frames, s) != []
    decreases |frames|
  {
    if frames != [] {
      var init, last := frames[..|frames| - 1], frames[|frames| - 1];
      SourcesAreDistinct(init);
      assert frames == init + [last];
      forall s
        ensures s in Sources(frames) <==> exists i | 0 <= i < |frames| :: frames[i].source == s
      {
        if s in Sources(init) {
          var i :| 0 <= i < |init| && init[i].source == s;
          assert frames[i].source == s;
        }
        if exists i | 0 <= i < |frames| :: frames[i].source == s {
          var i :| 0 <= i < |frames| && frames[i].source == s;
          if i < |init| {
            assert init[i].source == s;
          }
        }
        assert frames[|frames| - 1].source == last.source;
      }
    }
  }

  /** The ISO-TP round trip.  Any number of ECUs, any merge of their frames, any
      way of showing the frames as lines, any noise between the lines and any
      line terminators: the parser returns exactly the payloads, in the order in
      which the ECUs first appeared, every ECU once. */
  lemma TranscriptIsParsedBack(traffic: Traffic, frames: seq<Frame>, lines: seq<string>, terminators: string)
    requires Sendable(traffic) && Merges(frames, traffic) && Carries(lines, frames)
    requires lines != [] && |terminators| == |lines| - 1
    requires forall i | 0 <= i < |lines| :: OneLine(lines[i])
    requires forall i | 0 <= i < |terminators| :: terminators[i] in "\r\n"
    ensures var sources := Sources(frames);
      && (forall s :: s in sources <==> s in traffic)
      && (forall i, j | 0 <= i < j < |sources| :: sources[i] != sources[j])
      && ParseResponse(Join(lines, terminators)) == Responses(Delivered(traffic, sources))
  {
    hide Carries, OneLine, Segment, ParsedFrames;
    LinesOfJoin(lines, terminators);
    CarriedFramesAreParsed(lines, frames);
    SourcesAreDistinct(frames);
    forall s
      ensures s in Sources(frames) <==> s in traffic
    {
      if s in traffic {
        assert FramesOf(frames, s) == Segment(traffic[s]);
      }
      if s in Sources(frames) {
        var i :| 0 <= i < |frames| && frames[i].source == s;
      }
    }
    CollectDelivers(frames, traffic, Sources(frames));
  }

  /** Order of first appearance: a source listed earlier has a frame before every
      frame of a source listed later. */
  lemma {:induction false} SourcesInOrder(frames: seq<Frame>, i: nat, j: nat, k: nat)
    requires i < j < |Sources(frames)| && k < |frames| && frames[k].source == Sources(frames)[j]
    ensures exists h | 0 <= h < k :: frames[h].source == Sources(frames)[i]
    decreases |frames|
  {
    var init, last := frames[..|frames| - 1], frames[|frames| - 1];
    SourcesAreDistinct(init);
    if j < |Sources(init)| {
      if k < |init| {
        SourcesInOrder(init, i, j, k);
        var h :| 0 <= h < k && init[h].source == Sources(init)[i];
        assert frames[h].source == Sources(frames)[i];
      } else {
        SourceIsPresent(init, i);
      }
    } else {
      SourceIsPresent(init, i);
      AbsentSource(init, last.source);
    }
  }

  lemma AbsentSource(frames: seq<Frame>, s: nat)
    requires s !in Sources(frames)
    ensures forall k | 0 <= k < |frames| :: frames[k].source != s
  {
    SourcesAreDistinct(frames);
  }

  lemma SourceIsPresent(init: seq<Frame>, i: nat)
    requires i < |Sources(init)|
    ensures exists h | 0 <= h < |init| :: init[h].source == Sources(init)[i]
  {
    SourcesAreDistinct(init);
    assert Sources(init)[i] in Sources(init);
  }

  // ----- when the parser faults -----

  lemma {:induction false} CollectFaults(frames: seq<Frame>, sources: seq<nat>)
    ensures Collect(frames, sources) == Fault
       <==> exists i | 0 <= i < |sources| :: Reassemble(FramesOf(frames, sources[i])) == IndexFault
    decreases |sources|
  {
    hide Reassemble, FramesOf;
    if sources != [] {
      var init := sources[..|sources| - 1];
      CollectFaults(frames, init);
      if exists i | 0 <= i < |init| :: Reassemble(FramesOf(frames, init[i])) == IndexFault {
        var i :| 0 <= i < |init| && Reassemble(FramesOf(frames, init[i])) == IndexFault;
        assert sources[i] == init[i];
      }
      if exists i | 0 <= i < |sources| :: Reassemble(FramesOf(frames, sources[i])) == IndexFault {
        var i :| 0 <= i < |sources| && Reassemble(FramesOf(frames, sources[i])) == IndexFault;
        if i < |init| {
          assert init[i] == sources[i];
        }
      }
    }
  }

  lemma ParsedFrameIsNotEmpty(line: string)
    ensures ParseLine(line).Some? ==> ParseLine(line).value.bytes != []
  {
    hide Normal, HasToken, FromHex;
  }

  lemma NoFrames(source: nat)
    ensures FramesOf([], source) == []
  {
  }

  lemma {:induction false} ParsedFramesAreNotEmpty(lines: seq<string>, source: nat)
    ensures forall i | 0 <= i < |FramesOf(ParsedFrames(lines), source)|
              :: FramesOf(ParsedFrames(lines), source)[i] != []
    decreases |lines|
  {
    hide ParseLine, FramesOf;
    if lines == [] {
      NoFrames(source);
    } else {
      var init := lines[..|lines| - 1];
      ParsedFramesAreNotEmpty(init, source);
      ParsedFrameIsNotEmpty(lines[|lines| - 1]);
      var parsed := ParseLine(lines[|lines| - 1]);
      if parsed.Some? {
        FramesOfAppend(ParsedFrames(init), parsed.value, source);
      } else {
        assert ParsedFrames(lines) == ParsedFrames(init);
      }
    }
  }

  /** The parser raises exactly when some ECU's first line is a first frame
      without its length byte. */
  lemma ParserFaultsExactly(raw: string)
    ensures var frames := ParsedFrames(Lines(raw));
      ParseResponse(raw) == Fault
      <==> exists s | s in Sources(frames) ::
        var first := FramesOf(frames, s); first != [] && |first[0]| == 1 && first[0][0] / 16 == 1
  {
    hide ParsedFrames, Lines;
    var lines := Lines(raw);
    var frames := ParsedFrames(lines);
    var sources := Sources(frames);
    CollectFaults(frames, sources);
    SourcesAreDistinct(frames);
    forall s | s in sources
      ensures Reassemble(FramesOf(frames, s)) == IndexFault
         <==> |FramesOf(frames, s)[0]| == 1 && FramesOf(frames, s)[0][0] / 16 == 1
    {
      ParsedFramesAreNotEmpty(lines, s);
    }
  }

  /** A response of one line that shows a first frame of a single byte. */
  lemma ShortFirstFrameFaults(line: string, source: nat, pci: byte)
    requires OneLine(line) && Shows(line, Frame(source, [pci])) && pci / 16 == 1
    ensures ParseResponse(line) == Fault
  {
    hide ParseLine, Reassemble, Shows, OneLine;
    var f := Frame(source, [pci]);
    LineParsesExactly(line, f);
    LinesOfPrefix(line, "");
    assert line + "" == line;
    assert Lines("") == [""];
    assert Lines(line) == [line];
    assert [line][..0] == [] && [f][..0] == [];
    assert ParsedFrames([]) == [] && Sources([]) == [] && FramesOf([], source) == [];
    assert ParsedFrames([line]) == [f];
    assert Sources([f]) == [source] && FramesOf([f], source) == [[pci]];
    ParserFaultsExactly(line);
    assert source in Sources([f]);
  }

  lemma ShortLineFaults()
    ensures ParseResponse("7E810") == Fault
  {
    hide ParseResponse;
    var f := Frame(0x7E8, [0x10]);
    assert f.bytes[1..] == [];
    assert PrintBytes([]) == "";
    assert PrintFrame(f) == "7E810";
    PrintedLineShows(f);
    ShortFirstFrameFaults("7E810", 0x7E8, 0x10);
  }
}
