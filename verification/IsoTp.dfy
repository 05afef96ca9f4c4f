/** ISO 15765-2 transport: segmenting a payload into CAN frames (section 9.6 of
    ISO 15765-2:2016) and the reassembly that the ELM327 backend does. */
module IsoTp {
  import opened NatBits

  type Bytes = seq<byte>

  /** `IndexFault` is the IndexError of a first frame without its length byte. */
  datatype Assembly = Payload(data: Bytes) | IndexFault

  function Take(s: Bytes, n: nat): (r: Bytes)
    ensures r <= s && (if n <= |s| then |r| == n else r == s)
  {
    if n <= |s| then s[..n] else s
  }

  predicate IsConsecutive(f: Bytes) { f != [] && f[0] / 16 == 2 }

  /** The data of the consecutive frames, in the order they arrived; anything
      else between them is passed over, and sequence numbers are not looked at. */
  function ConsecutiveData(frames: seq<Bytes>): Bytes {
    if frames == [] then []
    else
      var f := frames[|frames| - 1];
      ConsecutiveData(frames[..|frames| - 1]) + if IsConsecutive(f) then f[1..] else []
  }

  /** The twelve-bit length of a first frame. */
  function FirstLength(high: int, low: int): (n: nat)
    requires 0 <= high < 256 && 0 <= low < 256
  {
    high % 16 * 256 + low
  }

  function Reassemble(frames: seq<Bytes>): Assembly {
    if frames == [] then Payload([])
    else if frames[0] == [] then IndexFault
    else
      var first := frames[0];
      if first[0] / 16 == 0 then Payload(Take(first[1..], first[0] % 16))
      else if first[0] / 16 == 1 then
        if |first| < 2 then IndexFault
        else Payload(Take(first[2..] + ConsecutiveData(frames[1..]), FirstLength(first[0], first[1])))
      else Payload(first)
  }

  method ReassembleIsoTp(frames: seq<Bytes>) returns (assembly: Assembly)
    ensures assembly == Reassemble(frames)
  {
    if frames == [] {
      return Payload([]);
    }
    if frames[0] == [] {
      return IndexFault;
    }
    var pciType := frames[0][0] / 16;
    if pciType == 0 {
      var length := frames[0][0] % 16;
      return Payload(Take(frames[0][1..], length));
    }
    if pciType == 1 {
      if |frames[0]| < 2 {
        return IndexFault;
      }
      var length := FirstLength(frames[0][0], frames[0][1]);
      var data := frames[0][2..];
      ghost var rest := frames[1..];
      for i := 1 to |frames|
        invariant data == frames[0][2..] + ConsecutiveData(rest[..i - 1])
      {
        var f := frames[i];
        assert rest[..i][..i - 1] == rest[..i - 1] && rest[..i][i - 1] == f;
        if f != [] && f[0] / 16 == 2 {
          data := data + f[1..];
        }
      }
      assert rest[..|frames| - 1] == rest;
      return Payload(Take(data, length));
    }
    return Payload(frames[0]);
  }

  // ----- segmenting -----

  /** A payload and the bytes that fill up its last frame. */
  datatype Message = Message(payload: Bytes, padding: Bytes)

  function Consecutive(rest: Bytes, number: nat, padding: Bytes): (frames: seq<Bytes>)
    requires number < 16
    ensures |frames| == if rest == [] then 1 else (|rest| + 6) / 7
  {
    if |rest| <= 7 then [[0x20 + number] + rest + padding]
    else [[0x20 + number] + rest[..7]] + Consecutive(rest[7..], (number + 1) % 16, padding)
  }

  /** A single frame for up to seven bytes, else a first frame with six bytes and
      consecutive frames numbered from one. */
  function Segment(m: Message): (frames: seq<Bytes>)
    requires |m.payload| <= 4095
    ensures frames != []
  {
    var n := |m.payload|;
    if n <= 7 then [[n] + m.payload + m.padding]
    else [[0x10 + n / 256, n % 256] + m.payload[..6]] + Consecutive(m.payload[6..], 1, m.padding)
  }

  lemma {:induction false} ConsecutiveDataFirst(f: Bytes, rest: seq<Bytes>)
    ensures ConsecutiveData([f] + rest) == (if IsConsecutive(f) then f[1..] else []) + ConsecutiveData(rest)
    decreases |rest|
  {
    var all := [f] + rest;
    if rest == [] {
      assert all[..0] == [];
    } else {
      assert all[..|all| - 1] == [f] + rest[..|rest| - 1];
      ConsecutiveDataFirst(f, rest[..|rest| - 1]);
    }
  }

  lemma {:induction false} ConsecutiveCarries(rest: Bytes, number: nat, padding: Bytes)
    requires number < 16
    ensures ConsecutiveData(Consecutive(rest, number, padding)) == rest + padding
    decreases |rest|
  {
    if |rest| <= 7 {
      var f := [0x20 + number] + rest + padding;
      assert [f] == [f] + [];
      ConsecutiveDataFirst(f, []);
    } else {
      var f := [0x20 + number] + rest[..7];
      ConsecutiveCarries(rest[7..], (number + 1) % 16, padding);
      ConsecutiveDataFirst(f, Consecutive(rest[7..], (number + 1) % 16, padding));
      assert rest == rest[..7] + rest[7..];
    }
  }

  /** Reassembly undoes segmentation, whatever fills the last frame. */
  lemma ReassembleSegment(m: Message)
    requires |m.payload| <= 4095
    ensures Reassemble(Segment(m)) == Payload(m.payload)
  {
    var n := |m.payload|;
    var frames := Segment(m);
    if n <= 7 {
      assert frames[0][1..] == m.payload + m.padding;
      assert Take(m.payload + m.padding, n) == m.payload;
    } else {
      ConsecutiveCarries(m.payload[6..], 1, m.padding);
      assert frames[1..] == Consecutive(m.payload[6..], 1, m.padding);
      assert frames[0][2..] == m.payload[..6];
      assert m.payload[..6] + (m.payload[6..] + m.padding) == m.payload + m.padding;
      assert Take(m.payload + m.padding, n) == m.payload;
    }
  }

  /** Unpadded frames fit the eight data bytes of a CAN frame. */
  lemma {:induction false} ConsecutiveFits(rest: Bytes, number: nat)
    requires number < 16
    ensures forall f | f in Consecutive(rest, number, []) :: 0 < |f| <= 8
    decreases |rest|
  {
    if |rest| > 7 {
      ConsecutiveFits(rest[7..], (number + 1) % 16);
    }
  }

  lemma SegmentFits(m: Message)
    requires |m.payload| <= 4095 && m.padding == []
    ensures forall f | f in Segment(m) :: 0 < |f| <= 8
  {
    if |m.payload| > 7 {
      ConsecutiveFits(m.payload[6..], 1);
    }
  }
}
