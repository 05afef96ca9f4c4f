/** The ELM327 response parser: hex lines from several ECUs, sorted by source
    and reassembled per ECU. */
module Elm {
  import opened NatBits
  import opened Text
  import opened IsoTp

  datatype EcuResponse = EcuResponse(source: nat, data: Bytes)

  datatype Frame = Frame(source: nat, bytes: Bytes)

  // ----- hexadecimal -----

  predicate IsHexChar(c: char) { '0' <= c <= '9' || 'A' <= c <= 'F' }

  predicate IsHex(s: string) {
    forall i | 0 <= i < |s| :: IsHexChar(s[i])
  }

  function HexValue(c: char): (v: nat)
    requires IsHexChar(c)
    ensures v < 16
  {
    if c <= '9' then (c - '0') as nat else (c - 'A') as nat + 10
  }

  function HexChar(v: nat): (c: char)
    requires v < 16
    ensures IsHexChar(c) && HexValue(c) == v
  {
    if v < 10 then '0' + v as char else 'A' + (v - 10) as char
  }

  lemma HexDigits(v: nat)
    requires v < 16
    ensures HexChar(v) == "0123456789ABCDEF"[v]
  {
  }

  /** Pairs of digits; an odd digit at the end is an error. */
  function FromHex(s: string): Option<Bytes>
    requires IsHex(s)
  {
    if s == "" then Some([])
    else if |s| == 1 then None
    else
      match FromHex(s[2..])
      case None => None
      case Some(rest) => Some([HexValue(s[0]) * 16 + HexValue(s[1])] + rest)
  }

  function SourceId(s: string): nat
    requires |s| == 3 && IsHex(s)
  {
    HexValue(s[0]) * 256 + HexValue(s[1]) * 16 + HexValue(s[2])
  }

  // ----- one line -----

  const TOKENS: seq<string> := ["SEARCHING", "NODATA", "STOPPED", "ERROR", "UNABLE", "?"]

  function Normal(line: string): string {
    UpperAll(RemoveSpaces(Strip(line)))
  }

  predicate HasToken(s: string) {
    exists i | 0 <= i < |TOKENS| :: Contains(s, TOKENS[i])
  }

  function ParseLine(line: string): Option<Frame> {
    var s := Normal(line);
    if s == "" || s == ">" then None
    else if HasToken(s) then None
    else if |s| < 4 || !IsHex(s) then None
    else
      match FromHex(s[3..])
      case None => None
      case Some(bytes) => if bytes == [] then None else Some(Frame(SourceId(s[..3]), bytes))
  }

  // ----- the lines of a response -----

  predicate IsTerminator(c: char) { c == '\r' || c == '\n' }

  /** Split at every carriage return and every line feed. */
  function Lines(raw: string): (lines: seq<string>)
    ensures lines != []
  {
    if raw == "" then [""]
    else
      var rest := Lines(raw[1..]);
      if IsTerminator(raw[0]) then [""] + rest else [[raw[0]] + rest[0]] + rest[1..]
  }

  function ParsedFrames(lines: seq<string>): seq<Frame> {
    if lines == [] then []
    else
      ParsedFrames(lines[..|lines| - 1]) +
      match ParseLine(lines[|lines| - 1])
      case None => []
      case Some(frame) => [frame]
  }

  // ----- sorting by source -----

  function FramesOf(frames: seq<Frame>, source: nat): seq<Bytes> {
    if frames == [] then []
    else
      var last := frames[|frames| - 1];
      FramesOf(frames[..|frames| - 1], source) + if last.source == source then [last.bytes] else []
  }

  /** The sources in the order of their first frames. */
  function Sources(frames: seq<Frame>): seq<nat> {
    if frames == [] then []
    else
      var known, last := Sources(frames[..|frames| - 1]), frames[|frames| - 1].source;
      if last in known then known else known + [last]
  }

  datatype Parsed = Responses(list: seq<EcuResponse>) | Fault

  function Collect(frames: seq<Frame>, sources: seq<nat>): Parsed {
    if sources == [] then Responses([])
    else
      match Collect(frames, sources[..|sources| - 1])
      case Fault => Fault
      case Responses(list) =>
        var source := sources[|sources| - 1];
        match Reassemble(FramesOf(frames, source))
        case IndexFault => Fault
        case Payload(data) => Responses(if data == [] then list else list + [EcuResponse(source, data)])
  }

  function ParseResponse(raw: string): Parsed {
    var frames := ParsedFrames(Lines(raw));
    Collect(frames, Sources(frames))
  }

  // ----- the parser -----

  method ScanLine(line: string) returns (frame: Option<Frame>)
    ensures frame == ParseLine(line)
  {
    var s := Normal(line);
    if s == "" || s == ">" {
      return None;
    }
    for i := 0 to |TOKENS|
      invariant forall k | 0 <= k < i :: !Contains(s, TOKENS[k])
    {
      if Contains(s, TOKENS[i]) {
        return None;
      }
    }
    if |s| < 4 || !IsHex(s) {
      return None;
    }
    var source := SourceId(s[..3]);
    var bytes := FromHex(s[3..]);
    if bytes == None || bytes.value == [] {
      return None;
    }
    frame := Some(Frame(source, bytes.value));
  }

  lemma FramesOfAppend(frames: seq<Frame>, f: Frame, source: nat)
    ensures FramesOf(frames + [f], source) == FramesOf(frames, source) + if f.source == source then [f.bytes] else []
    ensures Sources(frames + [f])
         == if f.source in Sources(frames) then Sources(frames) else Sources(frames) + [f.source]
  {
    assert (frames + [f])[..|frames|] == frames;
  }

  /** The dictionary holds every source's frames in order, and nothing else. */
  ghost predicate Sorted(framesBySource: map<nat, seq<Bytes>>, order: seq<nat>, frames: seq<Frame>) {
    && order == Sources(frames)
    && (forall s :: s in framesBySource <==> s in order)
    && (forall s | s in framesBySource :: framesBySource[s] == FramesOf(frames, s))
    && (forall s: nat | s !in framesBySource :: FramesOf(frames, s) == [])
  }

  /** File one frame under its source. */
  method AddFrame(framesBySource: map<nat, seq<Bytes>>, order: seq<nat>, frame: Frame, ghost frames: seq<Frame>)
    returns (byName: map<nat, seq<Bytes>>, names: seq<nat>)
    requires Sorted(framesBySource, order, frames)
    ensures Sorted(byName, names, frames + [frame])
  {
    hide FramesOf, Sources;
    byName, names := framesBySource, order;
    if frame.source !in byName {
      byName := byName[frame.source := []];
      names := names + [frame.source];
    }
    byName := byName[frame.source := byName[frame.source] + [frame.bytes]];
    forall s: nat
      ensures FramesOf(frames + [frame], s) == FramesOf(frames, s) + if frame.source == s then [frame.bytes] else []
    {
      FramesOfAppend(frames, frame, s);
    }
    FramesOfAppend(frames, frame, frame.source);
  }

  method SortFrames(lines: seq<string>) returns (framesBySource: map<nat, seq<Bytes>>, order: seq<nat>)
    ensures Sorted(framesBySource, order, ParsedFrames(lines))
  {
    hide ParseLine, Sorted;
    framesBySource, order := map[], [];
    NothingSorted();
    ghost var frames: seq<Frame> := [];
    for i := 0 to |lines|
      invariant frames == ParsedFrames(lines[..i])
      invariant Sorted(framesBySource, order, frames)
    {
      var frame := ScanLine(lines[i]);
      assert lines[..i + 1][..i] == lines[..i];
      if frame.Some? {
        framesBySource, order := AddFrame(framesBySource, order, frame.value, frames);
        frames := frames + [frame.value];
      }
    }
    assert lines[..|lines|] == lines;
  }

  lemma NothingSorted()
    ensures Sorted(map[], [], [])
  {
  }

  method ParseElmResponse(raw: string) returns (parsed: Parsed)
    ensures parsed == ParseResponse(raw)
  {
    hide ParseLine, Reassemble, Lines, Sources, FramesOf;
    ghost var frames := ParsedFrames(Lines(raw));
    var framesBySource, order := SortFrames(Lines(raw));
    var responses: seq<EcuResponse> := [];
    for i := 0 to |order|
      invariant Collect(frames, order[..i]) == Responses(responses)
    {
      var source := order[i];
      var assembly := ReassembleIsoTp(framesBySource[source]);
      assert order[..i + 1][..i] == order[..i];
      if assembly.IndexFault? {
        FaultStays(frames, order, i + 1);
        return Fault;
      }
      if assembly.data != [] {
        responses := responses + [EcuResponse(source, assembly.data)];
      }
    }
    assert order[..|order|] == order;
    parsed := Responses(responses);
  }

  lemma {:induction false} FaultStays(frames: seq<Frame>, sources: seq<nat>, n: nat)
    requires n <= |sources| && Collect(frames, sources[..n]) == Fault
    ensures Collect(frames, sources) == Fault
    decreases |sources|
  {
    if n < |sources| {
      var init := sources[..|sources| - 1];
      assert init[..n] == sources[..n];
      FaultStays(frames, init, n);
    } else {
      assert sources[..n] == sources;
    }
  }
}
