/** From the simulator's stored codes over ELM327 lines back to code strings, and
    the PID walk against the simulator. */
module EndToEnd {
  import opened NatBits
  import opened Text
  import opened IsoTp
  import opened Elm
  import opened ElmRoundTrip
  import Dtc
  import EcuSim
  import Obd2

  // ----- one reply -----

  predicate AllDisplayCodes(codes: seq<string>) {
    forall i | 0 <= i < |codes| :: Dtc.IsDisplayCode(codes[i])
  }

  /** The codes in upper case, without the empty code. */
  function Kept(codes: seq<string>): seq<string> {
    if codes == [] then []
    else
      var last := UpperAll(codes[|codes| - 1]);
      Kept(codes[..|codes| - 1]) + if last != "P0000" then [last] else []
  }

  lemma {:induction false} CodesAppend(a: Bytes, hi: byte, lo: byte)
    requires |a| % 2 == 0
    ensures var code := Dtc.DecodeDtc(hi, lo);
      Obd2.Codes(a + [hi, lo]) == Obd2.Codes(a) + if code != "P0000" then [code] else []
    decreases |a|
  {
    hide Dtc.DecodeDtc;
    var all := a + [hi, lo];
    if a == [] {
      assert all[2..] == [];
      assert Obd2.Codes([]) == [];
    } else {
      CodesAppend(a[2..], hi, lo);
      assert all[2..] == a[2..] + [hi, lo];
    }
  }

  lemma {:induction false} EncodedCodesDecode(codes: seq<string>)
    requires AllDisplayCodes(codes)
    ensures EcuSim.EncodeAll(codes).Some?
    ensures |EcuSim.EncodeAll(codes).value| == 2 * |codes|
    ensures Obd2.Codes(EcuSim.EncodeAll(codes).value) == Kept(codes)
    decreases |codes|
  {
    hide Dtc.EncodeDtc, Dtc.DecodeDtc, Dtc.IsDisplayCode, UpperAll, Obd2.Codes;
    if codes == [] {
      Obd2.NoCodes([]);
    } else {
      var init, last := codes[..|codes| - 1], codes[|codes| - 1];
      EncodedCodesDecode(init);
      Dtc.DisplayCodeDecodes(last);
      var e := Dtc.EncodeDtc(last);
      CodesAppend(EcuSim.EncodeAll(init).value, e.hi, e.lo);
    }
  }

  lemma StoredCodesAreRead(codes: seq<string>)
    requires AllDisplayCodes(codes)
    ensures EcuSim.StoredCodesReply(codes).Some? <==> |codes| <= 255
    ensures EcuSim.StoredCodesReply(codes).Some? ==>
      var reply := EcuSim.StoredCodesReply(codes).value;
      && 1 <= |reply| <= 4095 && Obd2.IsPositive(reply, 0x03, None) && Obd2.PayloadCodes(reply) == Kept(codes)
  {
    hide EcuSim.EncodeAll, Obd2.Codes, Kept;
    EncodedCodesDecode(codes);
    if |codes| <= 255 {
      var body := EcuSim.EncodeAll(codes).value;
      var reply := [0x43, |codes|] + body;
      assert reply[2..] == body;
      assert Obd2.Usable(|codes|, |body|) == |body|;
      assert body[..|body|] == body;
    }
  }

  // ----- all ECUs -----

  type Fleet = map<nat, seq<string>>

  predicate Answering(fleet: Fleet) {
    forall s | s in fleet :: s < 0x1000 && AllDisplayCodes(fleet[s])
  }

  /** Every ECU sends its Mode 03 reply, its last frame filled up somehow. */
  predicate SendsReplies(fleet: Fleet, traffic: Traffic) {
    && traffic.Keys == fleet.Keys
    && forall s | s in fleet :: EcuSim.StoredCodesReply(fleet[s]) == Some(traffic[s].payload)
  }

  function AllKept(fleet: Fleet, sources: seq<nat>): seq<string>
    requires forall s | s in sources :: s in fleet
  {
    if sources == [] then []
    else
      var init, last := sources[..|sources| - 1], sources[|sources| - 1];
      assert last in sources;
      AllKept(fleet, init) + Kept(fleet[last])
  }

  lemma {:induction false} DeliveredCodes(fleet: Fleet, traffic: Traffic, sources: seq<nat>)
    requires Answering(fleet) && SendsReplies(fleet, traffic)
    requires forall s | s in sources :: s in fleet
    ensures Obd2.DtcsIn(Delivered(traffic, sources), 0x03) == AllKept(fleet, sources)
    decreases |sources|
  {
    hide EcuSim.StoredCodesReply, Obd2.PayloadCodes, Obd2.IsPositive, Kept, AllDisplayCodes;
    if sources != [] {
      var init, last := sources[..|sources| - 1], sources[|sources| - 1];
      assert last in sources;
      DeliveredCodes(fleet, traffic, init);
      StoredCodesAreRead(fleet[last]);
      var list := Delivered(traffic, sources);
      assert list[..|list| - 1] == Delivered(traffic, init);
    }
  }

  lemma RepliesAreSendable(fleet: Fleet, traffic: Traffic)
    requires Answering(fleet) && SendsReplies(fleet, traffic)
    ensures Sendable(traffic)
  {
    hide EcuSim.StoredCodesReply, AllDisplayCodes;
    forall s | s in traffic
      ensures s < 0x1000 && 1 <= |traffic[s].payload| <= 4095
    {
      StoredCodesAreRead(fleet[s]);
    }
  }

  /** End to end: the simulators' stored codes, encoded, segmented, interleaved,
      printed with any noise, parsed, reassembled and decoded, come back as they
      were, ECU by ECU in order of first appearance, without P0000. */
  lemma StoredCodesSurvive(fleet: Fleet, traffic: Traffic, frames: seq<Frame>, lines: seq<string>, terminators: string)
    requires Answering(fleet) && SendsReplies(fleet, traffic)
    requires (RepliesAreSendable(fleet, traffic); Merges(frames, traffic)) && Carries(lines, frames)
    requires lines != [] && |terminators| == |lines| - 1
    requires forall i | 0 <= i < |lines| :: OneLine(lines[i])
    requires forall i | 0 <= i < |terminators| :: terminators[i] in "\r\n"
    ensures forall s :: s in Sources(frames) <==> s in fleet
    ensures var parsed := ParseResponse(Join(lines, terminators));
      parsed.Responses? && Obd2.DtcsIn(parsed.list, 0x03) == AllKept(fleet, Sources(frames))
  {
    hide Answering, Merges, Carries, Sources, ParseResponse, Join, OneLine, Delivered;
    RepliesAreSendable(fleet, traffic);
    TranscriptIsParsedBack(traffic, frames, lines, terminators);
    DeliveredCodes(fleet, traffic, Sources(frames));
  }

  // ----- the PID walk against the simulator -----

  /** A transport with this one ECU behind it. */
  function Simulator(vin: string, codes: seq<string>): Obd2.Responder {
    (req: Bytes) =>
      if req == [] then []
      else match EcuSim.Reply(req, vin, codes) case None => [] case Some(data) => [EcuResponse(0x7E8, data)]
  }

  lemma SimulatorsFirstRange(vin: string, codes: seq<string>)
    ensures Obd2.FirstBitmap(Simulator(vin, codes)([0x01, 0x00]), 0x00) == Some(EcuSim.Bitmap(0, EcuSim.MODE01.Keys))
  {
    hide EcuSim.Bitmap;
    var keys := EcuSim.MODE01.Keys;
    EcuSim.BitmapIsWord(0, keys);
    var response := EcuResponse(0x7E8, Obd2.BitmapReply(0, keys));
    Obd2.SoleReplyCarries(response, 0, keys);
    assert Simulator(vin, codes)([0x01, 0x00]) == [response];
    Obd2.CarriedBitmapIsRead([response], 0, keys);
  }

  /** The walk finds exactly the PIDs in the simulator's table. */
  lemma WalkFindsTheTable(vin: string, codes: seq<string>)
    ensures Obd2.Walk(Simulator(vin, codes), 0) == {0x04, 0x05, 0x0C, 0x0D, 0x0F, 0x11}
  {
    hide EcuSim.Bitmap, Obd2.FirstBitmap, Simulator, Obd2.MarkedPids;
    var keys := EcuSim.MODE01.Keys;
    SimulatorsFirstRange(vin, codes);
    var found := Obd2.Walk(Simulator(vin, codes), 0);
    Obd2.BitmapMarks(0, keys, 0);
    assert found == Obd2.MarkedPids(EcuSim.Bitmap(0, keys), 0, 32);
    forall p
      ensures p in found <==> p in keys
    {
      Obd2.BitmapMarks(0, keys, p);
    }
  }
}
