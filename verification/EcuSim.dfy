/** The simulated ECU's replies (message logic only). */
module EcuSim {
  import opened NatBits
  import opened Text
  import opened IsoTp
  import Dtc

  // ----- the supported-PID bitmap -----

  /** Bit 31 - i stands for base + i + 1. */
  function BitmapUpTo(base: nat, supported: set<int>, n: nat): (bits: nat)
    requires n <= 32
  {
    if n == 0 then 0
    else
      var bits := BitmapUpTo(base, supported, n - 1);
      if base + n in supported then Or(bits, Pow2(32 - n)) else bits
  }

  function Bitmap(base: nat, supported: set<int>): nat {
    BitmapUpTo(base, supported, 32)
  }

  lemma {:induction false} BitmapBit(base: nat, supported: set<int>, n: nat, i: nat)
    requires n <= 32 && i < 32
    ensures Bit(BitmapUpTo(base, supported, n), 31 - i) <==> i < n && base + i + 1 in supported
  {
    hide Bit, Or, Pow2;
    if n == 0 {
      ZeroHasNoBits(31 - i);
    } else {
      BitmapBit(base, supported, n - 1, i);
      BitOfOr(BitmapUpTo(base, supported, n - 1), Pow2(32 - n), 31 - i);
      BitOfPow2(31 - i, 32 - n);
    }
  }

  lemma {:induction false} BitmapFits(base: nat, supported: set<int>, n: nat)
    requires n <= 32
    ensures BitmapUpTo(base, supported, n) < Pow2(32)
  {
    hide Bit, Or, Pow2;
    if n == 0 {
    } else {
      BitmapFits(base, supported, n - 1);
      Pow2Grows(32 - n, 32);
      OrStaysBelow(BitmapUpTo(base, supported, n - 1), Pow2(32 - n), 32);
    }
  }

  lemma FullWord()
    ensures Pow2(32) == 0x1_0000_0000
  {
    assert Pow2(8) == 0x100 && Pow2(16) == 0x1_0000;
    assert Pow2(24) == 0x100_0000;
  }

  lemma BitmapIsWord(base: nat, supported: set<int>)
    ensures Bitmap(base, supported) < 0x1_0000_0000
  {
    BitmapFits(base, supported, 32);
    FullWord();
  }

  /** Four bytes, most significant first. */
  function ToBytes4(bits: nat): (b: Bytes)
    requires bits < 0x1_0000_0000
    ensures |b| == 4
  {
    [bits / 0x100_0000, bits / 0x1_0000 % 256, bits / 0x100 % 256, bits % 256]
  }

  function Join4(a: nat, b: nat, c: nat, d: nat): nat {
    a * 0x100_0000 + b * 0x1_0000 + c * 0x100 + d
  }

  function FromBytes4(b: Bytes): nat
    requires |b| == 4
  {
    Join4(b[0], b[1], b[2], b[3])
  }

  lemma FromToBytes4(bits: nat)
    requires bits < 0x1_0000_0000
    ensures FromBytes4(ToBytes4(bits)) == bits
  {
    assert bits / 0x1_0000 == bits / 0x100_0000 * 256 + bits / 0x1_0000 % 256;
    assert bits / 0x100 == bits / 0x1_0000 * 256 + bits / 0x100 % 256;
    assert bits == bits / 0x100 * 256 + bits % 256;
  }

  method SupportedBitmap(base: nat, supported: set<int>) returns (bitmap: Bytes)
    ensures |bitmap| == 4 && FromBytes4(bitmap) == Bitmap(base, supported)
  {
    hide Or, Pow2;
    var bits: nat := 0;
    for i := 0 to 32
      invariant bits == BitmapUpTo(base, supported, i)
    {
      if base + i + 1 in supported {
        bits := Or(bits, Pow2(31 - i));
      }
    }
    BitmapFits(base, supported, 32);
    FullWord();
    bitmap := ToBytes4(bits);
    FromToBytes4(bits);
  }

  // ----- replies -----

  const MODE01: map<int, Bytes> :=
    map[0x04 := [0x7F], 0x05 := [0x5A], 0x0C := [0x1A, 0xF8], 0x0D := [0x50], 0x0F := [0x46], 0x11 := [0x33]]

  /** The codes' bytes one after the other; `None` is the exception of the first
      malformed code. */
  function EncodeAll(codes: seq<string>): Option<Bytes> {
    if codes == [] then Some([])
    else
      match (EncodeAll(codes[..|codes| - 1]), Dtc.EncodeDtc(codes[|codes| - 1]))
      case (Some(body), Encoded(hi, lo)) => Some(body + [hi, lo])
      case _ => None
  }

  /** Mode 03; the count has to fit a byte. */
  function StoredCodesReply(codes: seq<string>): Option<Bytes> {
    if |codes| >= 256 then None
    else
      match EncodeAll(codes)
      case None => None
      case Some(body) => Some([0x43, |codes|] + body)
  }

  predicate IsAscii(s: string) {
    forall i | 0 <= i < |s| :: s[i] < 128 as char
  }

  function Ascii(s: string): Bytes
    requires IsAscii(s)
  {
    seq(|s|, i requires 0 <= i < |s| => s[i] as int)
  }

  function VinReply(vin: string): Option<Bytes> {
    if IsAscii(vin) then Some([0x49, 0x02, 0x01] + Ascii(vin)) else None
  }

  /** What the ECU answers to a request that is not empty. */
  function Reply(req: Bytes, vin: string, codes: seq<string>): Option<Bytes>
    requires req != []
  {
    var mode := req[0];
    if mode == 0x09 && |req| >= 2 && req[1] == 0x02 then VinReply(vin)
    else if mode == 0x03 then StoredCodesReply(codes)
    else if mode == 0x01 && |req| >= 2 && req[1] in {0x00, 0x20, 0x40} then
      BitmapIsWord(req[1], MODE01.Keys);
      Some([0x41, req[1]] + ToBytes4(Bitmap(req[1], MODE01.Keys)))
    else if mode == 0x01 && |req| >= 2 && req[1] in MODE01 then Some([0x41, req[1]] + MODE01[req[1]])
    else Some([0x7F, mode, 0x12])
  }

  /** The live values, byte for byte. */
  lemma LiveValues(vin: string, codes: seq<string>)
    ensures Reply([0x01, 0x04], vin, codes) == Some([0x41, 0x04] + [0x7F])
    ensures Reply([0x01, 0x05], vin, codes) == Some([0x41, 0x05] + [0x5A])
    ensures Reply([0x01, 0x0C], vin, codes) == Some([0x41, 0x0C] + [0x1A, 0xF8])
    ensures Reply([0x01, 0x0D], vin, codes) == Some([0x41, 0x0D] + [0x50])
    ensures Reply([0x01, 0x0F], vin, codes) == Some([0x41, 0x0F] + [0x46])
    ensures Reply([0x01, 0x11], vin, codes) == Some([0x41, 0x11] + [0x33])
  {
    hide StoredCodesReply, VinReply, Bitmap;
  }

  /** The identification number goes out one byte a character; a character beyond
      ASCII raises. */
  lemma VinIsCarried(vin: string, codes: seq<string>, rest: Bytes, text: Bytes)
    ensures Reply([0x09, 0x02] + rest, vin, codes) == Some([0x49, 0x02, 0x01] + text)
       <==> |text| == |vin| && forall i | 0 <= i < |vin| :: vin[i] as int == text[i] < 128
    ensures Reply([0x09, 0x02] + rest, vin, codes) == None <==> exists i | 0 <= i < |vin| :: vin[i] as int >= 128
  {
    hide StoredCodesReply, Bitmap;
    if IsAscii(vin) {
      assert VinReply(vin).value[3..] == Ascii(vin);
      assert ([0x49, 0x02, 0x01] + text)[3..] == text;
      assert Ascii(vin) == text <==> |text| == |vin| && forall i | 0 <= i < |vin| :: vin[i] as int == text[i];
    }
    if |text| == |vin| && forall i | 0 <= i < |vin| :: vin[i] as int == text[i] < 128 {
      assert forall i | 0 <= i < |vin| :: vin[i] < 128 as char;
      assert Ascii(vin) == text;
    }
  }

  class SimulatedEcu {
    const vin: string
    const dtcs: seq<string>

    constructor (vin: string, dtcs: seq<string>)
      ensures this.vin == vin && this.dtcs == dtcs
    {
      this.vin := vin;
      this.dtcs := dtcs;
    }

    method Handle(req: Bytes) returns (reply: Option<Bytes>)
      requires req != []
      ensures reply == Reply(req, vin, dtcs)
    {
      hide Bitmap, Dtc.EncodeDtc;
      var mode := req[0];
      if mode == 0x09 && |req| >= 2 && req[1] == 0x02 {
        return VinReply(vin);
      }
      if mode == 0x03 {
        reply := StoredCodes();
        return;
      }
      if mode == 0x01 && |req| >= 2 {
        var pid := req[1];
        if pid in {0x00, 0x20, 0x40} {
          var bitmap := SupportedBitmap(pid, MODE01.Keys);
          BitmapIsWord(pid, MODE01.Keys);
          BytesDecide(bitmap, ToBytes4(Bitmap(pid, MODE01.Keys)), Bitmap(pid, MODE01.Keys));
          return Some([0x41, pid] + bitmap);
        }
        if pid in MODE01 {
          return Some([0x41, pid] + MODE01[pid]);
        }
      }
      return Some([0x7F, mode, 0x12]);
    }

    method StoredCodes() returns (reply: Option<Bytes>)
      ensures reply == StoredCodesReply(dtcs)
    {
      hide Dtc.EncodeDtc;
      if |dtcs| >= 256 {
        return None;
      }
      var body: Bytes := [0x43, |dtcs|];
      for i := 0 to |dtcs|
        invariant EncodeAll(dtcs[..i]).Some? && body == [0x43, |dtcs|] + EncodeAll(dtcs[..i]).value
      {
        assert dtcs[..i + 1][..i] == dtcs[..i];
        var encoded := Dtc.EncodeDtc(dtcs[i]);
        if encoded.BadCode? {
          FailureStays(dtcs, i + 1);
          return None;
        }
        body := body + [encoded.hi, encoded.lo];
      }
      assert dtcs[..|dtcs|] == dtcs;
      return Some(body);
    }
  }

  lemma JoinIsInjective(a: nat, b: nat, c: nat, d: nat, e: nat, f: nat, g: nat, h: nat)
    requires a < 256 && b < 256 && c < 256 && d < 256 && e < 256 && f < 256 && g < 256 && h < 256
    requires Join4(a, b, c, d) == Join4(e, f, g, h)
    ensures a == e && b == f && c == g && d == h
  {
    assert (a * 256 + b) * 0x1_0000 + (c * 256 + d) == (e * 256 + f) * 0x1_0000 + (g * 256 + h);
    assert a * 256 + b == e * 256 + f && c * 256 + d == g * 256 + h;
  }

  lemma BytesDecide(a: Bytes, b: Bytes, bits: nat)
    requires |a| == |b| == 4 && bits < 0x1_0000_0000
    requires FromBytes4(a) == bits && b == ToBytes4(bits)
    ensures a == b
  {
    FromToBytes4(bits);
    JoinIsInjective(a[0], a[1], a[2], a[3], b[0], b[1], b[2], b[3]);
  }

  lemma {:induction false} FailureStays(codes: seq<string>, n: nat)
    requires n <= |codes| && EncodeAll(codes[..n]) == None
    ensures EncodeAll(codes) == None
    decreases |codes|
  {
    hide Dtc.EncodeDtc;
    if n < |codes| {
      var init := codes[..|codes| - 1];
      assert init[..n] == codes[..n];
      FailureStays(init, n);
    } else {
      assert codes[..n] == codes;
    }
  }
}
