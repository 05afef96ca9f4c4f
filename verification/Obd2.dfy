/** The Mode 01 supported-PID walk and the trouble-code readers of SAE J1979. */
module Obd2 {
  import opened NatBits
  import opened Text
  import opened IsoTp
  import opened Elm
  import opened Transport
  import Dtc
  import EcuSim

  /** The payload answers the service, and echoes the PID if one is given. */
  predicate IsPositive(d: Bytes, sid: nat, pid: Option<nat>) {
    |d| >= 1 && d[0] == sid + 0x40 && (pid == None || (|d| >= 2 && d[1] == pid.value))
  }

  // ----- the supported-PID walk -----

  /** Whatever answers requests: a transport whose replies depend on the request. */
  type Responder = Bytes -> seq<EcuResponse>

  function FirstBitmap(responses: seq<EcuResponse>, base: nat): Option<nat> {
    if responses == [] then None
    else
      var d := responses[0].data;
      if IsPositive(d, 0x01, Some(base)) && |d| >= 6 then Some(EcuSim.FromBytes4(d[2..6]))
      else FirstBitmap(responses[1..], base)
  }

  /** The bit for `p` in the bitmap of the range above `base`. */
  predicate Marks(bits: nat, base: nat, p: int)
    requires base < p <= base + 32
  {
    Bit(bits, 31 - (p - base - 1))
  }

  function MarkedPids(bits: nat, base: nat, n: nat): set<int>
    requires n <= 32
  {
    set p | base < p <= base + n && Marks(bits, base, p)
  }

  function Walk(ask: Responder, base: nat): set<int>
    requires base < 256
    decreases 256 - base
  {
    match FirstBitmap(ask([0x01, base]), base)
    case None => {}
    case Some(bits) =>
      MarkedPids(bits, base, 32)
      + if bits % 2 == 1 && base + 0x20 <= 0xE0 then Walk(ask, base + 0x20) else {}
  }

  /** The walk over a transport, request by request; `None` is its exception. */
  function WalkOn(b: Backend, s: State, base: nat): (State, Option<set<int>>)
    requires base < 256
    decreases 256 - base
  {
    var t := AfterRequest(b, s, [0x01, base]);
    match RequestReplies(b, s, [0x01, base])
    case Broken => (t, None)
    case Replies(list) =>
      match FirstBitmap(list, base)
      case None => (t, Some({}))
      case Some(bits) =>
        var marked := MarkedPids(bits, base, 32);
        if bits % 2 == 1 && base + 0x20 <= 0xE0 then
          var (u, more) := WalkOn(b, t, base + 0x20);
          (u, AddTo(marked, more))
        else (t, Some(marked))
  }

  function AddTo(marked: set<int>, more: Option<set<int>>): Option<set<int>> {
    match more case None => None case Some(pids) => Some(marked + pids)
  }

  method FindBitmap(responses: seq<EcuResponse>, base: nat) returns (bits: Option<nat>)
    ensures bits == FirstBitmap(responses, base)
  {
    for i := 0 to |responses|
      invariant FirstBitmap(responses, base) == FirstBitmap(responses[i..], base)
    {
      var d := responses[i].data;
      if IsPositive(d, 0x01, Some(base)) {
        if |d| >= 6 {
          return Some(EcuSim.FromBytes4(d[2..6]));
        }
      }
      assert responses[i..][1..] == responses[i + 1..];
    }
    return None;
  }

  /** `None` is the exception of the transport, closed or failing. */
  method ReadSupportedPids(t: Channel) returns (result: Option<set<int>>)
    modifies t
    ensures !old(t.open) ==> result == None && t.View() == old(t.View())
    ensures old(t.open) ==> (t.View(), result) == WalkOn(t.backend, old(t.View()), 0)
  {
    hide FirstBitmap, MarkedPids, And, AfterRequest, RequestReplies;
    var supported: set<int> := {};
    var base: nat := 0x00;
    ghost var whole := WalkOn(t.backend, t.View(), 0);
    AddNothing({}, whole.1);
    while base <= 0xE0
      invariant base % 0x20 == 0 && base <= 0x100
      invariant t.open == old(t.open) && (!t.open ==> t.View() == old(t.View()) && base == 0)
      invariant t.open && base <= 0xE0 ==> whole.0 == WalkOn(t.backend, t.View(), base).0
      invariant t.open && base <= 0xE0 ==> whole.1 == AddTo(supported, WalkOn(t.backend, t.View(), base).1)
      invariant base > 0xE0 ==> whole == (t.View(), Some(supported))
      decreases 0x100 - base
    {
      ghost var s := t.View();
      RequestKeepsOpen(t.backend, s, [0x01, base]);
      var reply := t.Request([0x01, base]);
      if reply == Broken {
        return None;
      }
      var bitmap := FindBitmap(reply.list, base);
      if bitmap == None {
        AddNothing(supported, None);
        break;
      }
      var bits := bitmap.value;
      LowBit(bits);
      ghost var rest := if base + 0x20 <= 0xE0 then WalkOn(t.backend, t.View(), base + 0x20).1 else None;
      AddTwice(supported, MarkedPids(bits, base, 32), rest);
      supported := MarkAll(supported, bits, base);
      if And(bits, 0x1) == 0 {
        break;
      }
      base := base + 0x20;
    }
    result := Some(supported);
  }

  lemma AddNothing(marked: set<int>, more: Option<set<int>>)
    ensures AddTo({}, more) == more && marked + {} == marked
  {
    if more.Some? {
      assert {} + more.value == more.value;
    }
  }

  lemma AddTwice(a: set<int>, b: set<int>, more: Option<set<int>>)
    ensures AddTo(a, AddTo(b, more)) == AddTo(a + b, more)
  {
    if more.Some? {
      assert a + (b + more.value) == (a + b) + more.value;
    }
  }

  lemma RequestKeepsOpen(b: Backend, s: State, payload: Bytes)
    ensures AfterRequest(b, s, payload).open == s.open
  {
  }

  lemma LowBit(bits: nat)
    ensures And(bits, 0x1) == 0 <==> bits % 2 == 0
  {
    AndWithPow2(bits, 0);
  }

  method MarkAll(supported: set<int>, bits: nat, base: nat) returns (more: set<int>)
    ensures more == supported + MarkedPids(bits, base, 32)
  {
    hide Bit, And, Pow2;
    more := supported;
    for i := 0 to 32
      invariant more == supported + MarkedPids(bits, base, i)
    {
      AndWithPow2(bits, 31 - i);
      assert Marks(bits, base, base + i + 1) <==> Bit(bits, 31 - i);
      if And(bits, Pow2(31 - i)) > 0 {
        more := more + {base + i + 1};
      }
    }
  }

  /** The PIDs the walk reaches: those whose whole chain of range markers below
      them is supported too. */
  predicate Reachable(p: int, supported: set<int>) {
    1 <= p <= 256 && forall k | 1 <= k < 8 && k * 0x20 < p :: k * 0x20 in supported
  }

  /** The reply that carries the bitmap of a range. */
  function BitmapReply(base: byte, supported: set<int>): Bytes {
    EcuSim.BitmapIsWord(base, supported);
    [0x41, base] + EcuSim.ToBytes4(EcuSim.Bitmap(base, supported))
  }

  predicate PassesForBitmap(d: Bytes, base: byte) { [0x41, base] <= d && |d| >= 6 }

  ghost predicate FirstToPass(responses: seq<EcuResponse>, base: byte, i: nat) {
    && i < |responses| && PassesForBitmap(responses[i].data, base)
    && forall j | 0 <= j < i :: !PassesForBitmap(responses[j].data, base)
  }

  /** The replies hold that one, and none before it passes for a bitmap. */
  ghost predicate CarriesBitmap(responses: seq<EcuResponse>, base: byte, supported: set<int>) {
    exists i: nat :: FirstToPass(responses, base, i) && responses[i].data == BitmapReply(base, supported)
  }

  /** An ECU with this set answers every range. */
  ghost predicate Answers(ask: Responder, supported: set<int>) {
    forall k | 0 <= k < 8 :: CarriesBitmap(ask([0x01, k * 0x20]), k * 0x20, supported)
  }

  lemma PositiveReplyIs(d: Bytes, base: byte)
    ensures PassesForBitmap(d, base) <==> IsPositive(d, 0x01, Some(base)) && |d| >= 6
  {
  }

  lemma {:induction false} FirstBitmapAt(responses: seq<EcuResponse>, base: byte, i: nat)
    requires FirstToPass(responses, base, i)
    ensures FirstBitmap(responses, base) == Some(EcuSim.FromBytes4(responses[i].data[2..6]))
    decreases i
  {
    hide IsPositive, PassesForBitmap, EcuSim.FromBytes4;
    PositiveReplyIs(responses[0].data, base);
    PositiveReplyIs(responses[i].data, base);
    if i != 0 {
      FirstBitmapAt(responses[1..], base, i - 1);
    }
  }

  lemma {:induction false} SearchReplies(responses: seq<EcuResponse>, base: byte) returns (i: nat)
    ensures FirstToPass(responses, base, i)
         || (FirstBitmap(responses, base) == None
             && forall j | 0 <= j < |responses| :: !PassesForBitmap(responses[j].data, base))
    decreases |responses|
  {
    hide IsPositive, PassesForBitmap, EcuSim.FromBytes4;
    i := 0;
    if responses != [] {
      PositiveReplyIs(responses[0].data, base);
      if !PassesForBitmap(responses[0].data, base) {
        var k := SearchReplies(responses[1..], base);
        i := k + 1;
      }
    }
  }

  /** The bitmap is that of the first reply of 41, the range and four bytes more,
      and there is none exactly when no reply is of that form. */
  lemma BitmapIsReadExactly(responses: seq<EcuResponse>, base: byte, bits: nat)
    ensures FirstBitmap(responses, base) == Some(bits)
       <==> exists i: nat ::
              FirstToPass(responses, base, i) && bits == EcuSim.FromBytes4(responses[i].data[2..6])
    ensures FirstBitmap(responses, base) == None
       <==> forall j | 0 <= j < |responses| :: !PassesForBitmap(responses[j].data, base)
  {
    hide FirstBitmap, PassesForBitmap, EcuSim.FromBytes4;
    var i := SearchReplies(responses, base);
    if FirstToPass(responses, base, i) {
      FirstBitmapAt(responses, base, i);
    }
    if k: nat :| FirstToPass(responses, base, k) {
      FirstBitmapAt(responses, base, k);
    }
  }

  /** The reply bytes decode to the bitmap. */
  lemma CarriedBitmapIsRead(responses: seq<EcuResponse>, base: byte, supported: set<int>)
    requires CarriesBitmap(responses, base, supported)
    ensures FirstBitmap(responses, base) == Some(EcuSim.Bitmap(base, supported))
  {
    hide FirstBitmap, PassesForBitmap, EcuSim.Bitmap, EcuSim.ToBytes4, EcuSim.FromBytes4;
    var reply := BitmapReply(base, supported);
    var i: nat :| FirstToPass(responses, base, i) && responses[i].data == reply;
    EcuSim.BitmapIsWord(base, supported);
    EcuSim.FromToBytes4(EcuSim.Bitmap(base, supported));
    assert reply[2..6] == EcuSim.ToBytes4(EcuSim.Bitmap(base, supported));
    FirstBitmapAt(responses, base, i);
  }

  /** In particular an ECU that answers alone. */
  lemma SoleReplyCarries(response: EcuResponse, base: byte, supported: set<int>)
    requires response.data == BitmapReply(base, supported)
    ensures CarriesBitmap([response], base, supported)
  {
    hide EcuSim.Bitmap, EcuSim.ToBytes4;
    EcuSim.BitmapIsWord(base, supported);
    assert FirstToPass([response], base, 0);
  }

  lemma BitmapMarks(base: nat, supported: set<int>, p: int)
    ensures p in MarkedPids(EcuSim.Bitmap(base, supported), base, 32) <==> base < p <= base + 32 && p in supported
    ensures EcuSim.Bitmap(base, supported) % 2 == 1 <==> base + 32 in supported
  {
    hide Bit;
    var bits := EcuSim.Bitmap(base, supported);
    if base < p <= base + 32 {
      assert Marks(bits, base, p) <==> Bit(bits, 31 - (p - base - 1));
      EcuSim.BitmapBit(base, supported, 32, p - base - 1);
    }
    EcuSim.BitmapBit(base, supported, 32, 31);
    BitZero(bits);
  }

  lemma BitZero(x: nat)
    ensures Bit(x, 0) <==> x % 2 == 1
  {
  }

  lemma {:induction false} WalkFrom(ask: Responder, supported: set<int>, k: nat, p: int)
    requires k < 8 && Answers(ask, supported)
    ensures p in Walk(ask, k * 0x20) <==>
      k * 0x20 < p <= 256 && p in supported && forall m | k < m < 8 && m * 0x20 < p :: m * 0x20 in supported
    decreases 8 - k
  {
    hide FirstBitmap, EcuSim.Bitmap, MarkedPids, CarriesBitmap;
    var base := k * 0x20;
    CarriedBitmapIsRead(ask([0x01, base]), base, supported);
    BitmapMarks(base, supported, p);
    if k + 1 < 8 {
      WalkFrom(ask, supported, k + 1, p);
      assert (k + 1) * 0x20 == base + 0x20;
    }
  }

  /** Against an ECU that answers every range with the bitmap of its set, the walk
      returns exactly the supported PIDs it can reach. */
  lemma WalkFindsReachable(ask: Responder, supported: set<int>, p: int)
    requires Answers(ask, supported)
    ensures p in Walk(ask, 0) <==> p in supported && Reachable(p, supported)
  {
    hide Answers, Walk;
    WalkFrom(ask, supported, 0, p);
    assert 0 * 0x20 == 0;
    if Reachable(p, supported) && p in supported {
      forall m | 0 < m < 8 && m * 0x20 < p ensures m * 0x20 in supported {
      }
    }
  }

  /** A backend whose replies depend on the request alone, and which never
      raises. */
  ghost predicate Stateless(b: Backend) {
    !b.Scripted? && (b.Callable? ==> forall req :: b.answer(req).Replies?)
  }

  ghost function Asking(b: Backend): Responder
    requires Stateless(b)
  {
    (req: Bytes) =>
      match b
      case Table(_) => FirstOf(TableReplies(b, req))
      case Callable(answer) => (match answer(req) case Replies(list) => list case Broken => [])
      case Scripted(_) => []
  }

  /** The requests of a walk that goes on from `base`. */
  function Requests(ask: Responder, base: nat): seq<Bytes>
    requires base < 256
    decreases 256 - base
  {
    [[0x01, base]] +
    match FirstBitmap(ask([0x01, base]), base)
    case None => []
    case Some(bits) => if bits % 2 == 1 && base + 0x20 <= 0xE0 then Requests(ask, base + 0x20) else []
  }

  lemma AskedAlike(b: Backend, s: State, payload: Bytes)
    requires Stateless(b)
    ensures RequestReplies(b, s, payload) == Replies(Asking(b)(payload))
    ensures AfterRequest(b, s, payload).sent == s.sent + [payload]
  {
  }

  lemma {:induction false} WalkOverBackend(b: Backend, s: State, base: nat)
    requires Stateless(b) && base < 256
    ensures WalkOn(b, s, base).1 == Some(Walk(Asking(b), base))
    ensures WalkOn(b, s, base).0.sent == s.sent + Requests(Asking(b), base)
    decreases 256 - base
  {
    hide FirstBitmap, MarkedPids, AfterRequest, RequestReplies, Asking, Stateless;
    var t := AfterRequest(b, s, [0x01, base]);
    AskedAlike(b, s, [0x01, base]);
    var bitmap := FirstBitmap(Asking(b)([0x01, base]), base);
    if bitmap.Some? {
      AddNothing(MarkedPids(bitmap.value, base, 32), None);
    }
    if bitmap.Some? && bitmap.value % 2 == 1 && base + 0x20 <= 0xE0 {
      WalkOverBackend(b, t, base + 0x20);
      var rest := Requests(Asking(b), base + 0x20);
      assert s.sent + [[0x01, base]] + rest == s.sent + ([[0x01, base]] + rest);
    }
  }

  /** Over the in-memory transport, in any state, the walk against an ECU with
      any set of PIDs returns exactly those it can reach. */
  lemma TransportWalkFindsReachable(b: Backend, s: State, supported: set<int>, p: int)
    requires Stateless(b) && Answers(Asking(b), supported)
    ensures WalkOn(b, s, 0).1.Some?
    ensures p in WalkOn(b, s, 0).1.value <==> p in supported && Reachable(p, supported)
  {
    hide *;
    WalkOverBackend(b, s, 0);
    WalkFindsReachable(Asking(b), supported, p);
  }

  // ----- stored trouble codes -----

  /** The codes of an even number of bytes, without the empty code. */
  function Codes(body: Bytes): seq<string>
    decreases |body|
  {
    if |body| < 2 then []
    else
      var code := Dtc.DecodeDtc(body[0], body[1]);
      (if code != "P0000" then [code] else []) + Codes(body[2..])
  }

  function Least(a: nat, b: nat): nat { if a < b then a else b }

  function Usable(count: nat, available: nat): (n: nat)
    ensures n <= available
  {
    Least(count * 2, available - available % 2)
  }

  function PayloadCodes(data: Bytes): seq<string> {
    if |data| < 2 then [] else Codes(data[2..][..Usable(data[1], |data| - 2)])
  }

  /** The count byte decides how many pairs are read: what comes after them is
      left alone. */
  lemma CountedPairsAreRead(mode: byte, count: byte, body: Bytes, tail: Bytes)
    requires |body| == 2 * count
    ensures PayloadCodes([mode, count] + body + tail) == Codes(body)
  {
    hide Codes;
    PrefixIsRead(mode, count, body, tail);
  }

  /** Where pairs are missing, all whole pairs are read and an odd last byte is
      not. */
  lemma MissingPairsAreNot(mode: byte, count: byte, body: Bytes, odd: Bytes)
    requires |body| % 2 == 0 && |odd| <= 1 && |body| + |odd| < 2 * count
    ensures PayloadCodes([mode, count] + body + odd) == Codes(body)
  {
    hide Codes, Usable;
    WholePairs(count, |body|, |odd|);
    PrefixIsRead(mode, count, body, odd);
  }

  lemma PrefixIsRead(mode: byte, count: byte, body: Bytes, rest: Bytes)
    requires Usable(count, |body| + |rest|) == |body|
    ensures PayloadCodes([mode, count] + body + rest) == Codes(body)
  {
    hide *;
    var data := [mode, count] + body + rest;
    var tail := body + rest;
    assert data == [mode, count] + tail;
    assert data[2..] == tail && data[1] == count && |data| == 2 + |tail|;
    UsablePrefix(data, tail, body);
  }

  lemma UsablePrefix(data: Bytes, tail: Bytes, body: Bytes)
    requires |data| >= 2 && data[2..] == tail && Usable(data[1], |tail|) == |body| && body <= tail
    ensures PayloadCodes(data) == Codes(body)
  {
    hide Codes, Usable;
    assert tail[..|body|] == body;
  }

  lemma WholePairs(count: nat, pairs: nat, odd: nat)
    requires pairs % 2 == 0 && odd <= 1 && pairs + odd < 2 * count
    ensures Usable(count, pairs + odd) == pairs
  {
  }

  lemma CodesFrom(used: Bytes, i: nat)
    requires i + 1 < |used|
    ensures var code := Dtc.DecodeDtc(used[i], used[i + 1]);
      Codes(used[i..]) == (if code != "P0000" then [code] else []) + Codes(used[i + 2..])
  {
    hide Dtc.DecodeDtc;
    assert used[i..][2..] == used[i + 2..];
  }

  method ParseDtcPayload(data: Bytes) returns (codes: seq<string>)
    ensures codes == PayloadCodes(data)
  {
    hide Dtc.DecodeDtc, Codes;
    if |data| < 2 {
      return [];
    }
    var count := data[1];
    var body := data[2..];
    var usable := Usable(count, |body|);
    ghost var used := body[..usable];
    codes := [];
    var i := 0;
    EvenUsable(count, |body|);
    assert used[0..] == used;
    while i < usable
      invariant i <= usable && i % 2 == 0
      invariant codes + Codes(used[i..]) == Codes(used)
    {
      CodesFrom(used, i);
      var code := Dtc.DecodeDtc(body[i], body[i + 1]);
      if code != "P0000" {
        codes := codes + [code];
      }
      i := i + 2;
    }
    NoCodes(used[i..]);
  }

  lemma EvenUsable(count: nat, available: nat)
    ensures Usable(count, available) % 2 == 0
  {
  }

  lemma NoCodes(body: Bytes)
    requires body == []
    ensures Codes(body) == []
  {
  }

  function DtcsIn(responses: seq<EcuResponse>, mode: nat): seq<string> {
    if responses == [] then []
    else
      DtcsIn(responses[..|responses| - 1], mode) +
      var d := responses[|responses| - 1].data;
      if IsPositive(d, mode, None) then PayloadCodes(d) else []
  }

  /** Only replies of the service count: their first byte is the mode plus 40. */
  lemma ServiceRepliesAreRead(responses: seq<EcuResponse>, r: EcuResponse, mode: nat)
    ensures DtcsIn(responses + [r], mode)
         == DtcsIn(responses, mode) + if r.data != [] && r.data[0] == mode + 0x40 then PayloadCodes(r.data) else []
  {
    hide PayloadCodes;
    assert (responses + [r])[..|responses|] == responses;
  }

  function DtcsOf(reply: Reply, mode: nat): Option<seq<string>> {
    match reply case Broken => None case Replies(list) => Some(DtcsIn(list, mode))
  }

  method ReadDtcs(t: Channel, mode: byte) returns (result: Option<seq<string>>)
    modifies t
    ensures !old(t.open) ==> result == None && t.View() == old(t.View())
    ensures old(t.open) ==> t.View() == AfterRequest(t.backend, old(t.View()), [mode])
    ensures old(t.open) ==> result == DtcsOf(RequestReplies(t.backend, old(t.View()), [mode]), mode)
  {
    hide PayloadCodes, AfterRequest, RequestReplies;
    var reply := t.Request([mode]);
    if reply == Broken {
      return None;
    }
    var responses := reply.list;
    ghost var after := t.View();
    var codes: seq<string> := [];
    for i := 0 to |responses|
      invariant t.View() == after
      invariant codes == DtcsIn(responses[..i], mode)
    {
      assert responses[..i + 1][..i] == responses[..i];
      if IsPositive(responses[i].data, mode, None) {
        var more := ParseDtcPayload(responses[i].data);
        codes := codes + more;
      }
    }
    assert responses[..|responses|] == responses;
    result := Some(codes);
  }
}
