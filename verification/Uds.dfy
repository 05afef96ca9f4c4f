/** The UDS client's core: one request, then waiting through response-pending
    replies (NRC 0x78, Annex A.1 of ISO 14229-1) for the final one. */
module Uds {
  import opened NatBits
  import opened Text
  import opened IsoTp
  import opened Elm
  import opened Transport

  const RESPONSE_PENDING: byte := 0x78

  datatype Outcome =
    | Answer(data: Bytes)
    | TransportFailed
    | NoResponse
    | TooManyPending
    | Negative(requestSid: byte, nrc: byte)
    | Unexpected(got: byte)

  // ----- one reply list, one reply -----

  /** The first reply that is not empty. */
  function Pick(responses: seq<EcuResponse>): (r: Option<Bytes>)
    ensures r.Some? ==> r.value != []
  {
    if responses == [] then None
    else if responses[0].data != [] then Some(responses[0].data)
    else Pick(responses[1..])
  }

  /** The reply that the client goes on with, if a call leaves one. */
  datatype Picked = Got(data: Bytes) | Silent | Lost

  function PickFrom(reply: Reply): (p: Picked)
    ensures p.Got? ==> p.data != []
  {
    match reply
    case Broken => Lost
    case Replies(list) => match Pick(list) case None => Silent case Some(data) => Got(data)
  }

  predicate IsPending(resp: Bytes) {
    |resp| >= 3 && resp[0] == 0x7F && resp[2] == RESPONSE_PENDING
  }

  function PositiveSid(sid: byte): byte { (sid + 0x40) % 256 }

  function Check(resp: Bytes, sid: byte): Outcome
    requires resp != []
  {
    if resp[0] == 0x7F then Negative(sid, if |resp| >= 3 then resp[2] else 0x10)
    else if resp[0] != PositiveSid(sid) then Unexpected(resp[0])
    else Answer(resp[1..])
  }

  // ----- the conversation on states -----

  function AwaitFinal(b: Backend, s: State, sid: byte, maxPending: int, pending: nat, resp: Bytes): (State, Outcome)
    requires resp != []
    decreases maxPending - pending
  {
    if !IsPending(resp) then (s, Check(resp, sid))
    else if pending + 1 > maxPending then (s, TooManyPending)
    else
      var t := AfterReceive(b, s);
      match PickFrom(ReceiveReplies(b, s))
      case Lost => (t, TransportFailed)
      case Silent => (t, NoResponse)
      case Got(next) => AwaitFinal(b, t, sid, maxPending, pending + 1, next)
  }

  function SendOn(b: Backend, s: State, maxPending: int, sid: byte, data: Bytes, expectResponse: bool)
    : (State, Outcome)
  {
    if !s.open then (s, TransportFailed)
    else
      var payload := [sid] + data;
      var t := AfterRequest(b, s, payload);
      if !expectResponse then (t, if RequestReplies(b, s, payload) == Broken then TransportFailed else Answer([]))
      else
        match PickFrom(RequestReplies(b, s, payload))
        case Lost => (t, TransportFailed)
        case Silent => (t, NoResponse)
        case Got(resp) => AwaitFinal(b, t, sid, maxPending, 0, resp)
  }

  // ----- the client -----

  class UDSClient {
    const t: Channel
    const maxPending: int

    constructor (t: Channel, maxPending: int)
      ensures this.t == t && this.maxPending == maxPending
    {
      this.t := t;
      this.maxPending := maxPending;
    }

    static method PickReply(responses: seq<EcuResponse>) returns (r: Option<Bytes>)
      ensures r == Pick(responses)
    {
      for i := 0 to |responses|
        invariant Pick(responses) == Pick(responses[i..])
      {
        if responses[i].data != [] {
          return Some(responses[i].data);
        }
        assert responses[i..][1..] == responses[i + 1..];
      }
      return None;
    }

    /** The final reply, or the outcome that ends the wait without one. */
    method Await(first: Bytes, sid: byte) returns (resp: Bytes, failure: Option<Outcome>)
      requires first != []
      modifies t
      ensures failure == None ==> resp != []
      ensures AwaitFinal(t.backend, old(t.View()), sid, maxPending, 0, first)
           == (t.View(), if failure == None then Check(resp, sid) else failure.value)
    {
      hide Check, Pick, AfterReceive, ReceiveReplies;
      resp := first;
      var pending: nat := 0;
      while IsPending(resp)
        invariant resp != []
        invariant AwaitFinal(t.backend, old(t.View()), sid, maxPending, 0, first)
               == AwaitFinal(t.backend, t.View(), sid, maxPending, pending, resp)
        decreases maxPending - pending
      {
        pending := pending + 1;
        if pending > maxPending {
          return resp, Some(TooManyPending);
        }
        var more := t.Receive();
        if more == Broken {
          return resp, Some(TransportFailed);
        }
        var picked := PickReply(more.list);
        if picked == None {
          return resp, Some(NoResponse);
        }
        resp := picked.value;
      }
      failure := None;
    }

    method Send(sid: byte, data: Bytes, expectResponse: bool) returns (outcome: Outcome)
      modifies t
      ensures SendOn(t.backend, old(t.View()), maxPending, sid, data, expectResponse) == (t.View(), outcome)
    {
      hide Pick, AwaitFinal, AfterRequest, RequestReplies;
      var payload := [sid] + data;
      var reply := t.Request(payload);
      if reply == Broken {
        return TransportFailed;
      }
      if !expectResponse {
        return Answer([]);
      }
      var first := PickReply(reply.list);
      if first == None {
        return NoResponse;
      }
      var resp, failure := Await(first.value, sid);
      if failure != None {
        return failure.value;
      }
      outcome := Check(resp, sid);
    }
  }

  // ----- what the transport would say -----

  /** The state after the request and `i` receives. */
  function StateAt(b: Backend, s: State, payload: Bytes, i: nat): State {
    if i == 0 then AfterRequest(b, s, payload) else AfterReceive(b, StateAt(b, s, payload, i - 1))
  }

  /** The reply list of the request (0) and of the receives after it. */
  function ReplyAt(b: Backend, s: State, payload: Bytes, i: nat): Reply {
    if i == 0 then RequestReplies(b, s, payload) else ReceiveReplies(b, StateAt(b, s, payload, i - 1))
  }

  /** The i-th picked reply is at least three bytes long, 7F in front and 78 in
      the third place. */
  predicate PendingAt(b: Backend, s: State, payload: Bytes, i: nat) {
    var r := PickFrom(ReplyAt(b, s, payload, i));
    r.Got? && |r.data| >= 3 && r.data[0] == 0x7F && r.data[2] == 0x78
  }

  function Budget(maxPending: int): nat { if maxPending < 0 then 0 else maxPending }

  /** The first `k` picked replies are response-pending and fit the budget. */
  ghost predicate WaitedThrough(b: Backend, s: State, payload: Bytes, maxPending: int, k: nat) {
    k <= Budget(maxPending) && forall i | 0 <= i < k :: PendingAt(b, s, payload, i)
  }

  function Final(r: Picked, sid: byte): Outcome
    requires r.Got? ==> r.data != []
  {
    match r
    case Lost => TransportFailed
    case Silent => NoResponse
    case Got(resp) => Check(resp, sid)
  }

  lemma {:induction false} AwaitSettles(
      b: Backend, s: State, payload: Bytes, sid: byte, maxPending: int, j: nat, k: nat)
    requires j <= k && WaitedThrough(b, s, payload, maxPending, k) && !PendingAt(b, s, payload, k)
    requires PickFrom(ReplyAt(b, s, payload, j)).Got?
    ensures AwaitFinal(b, StateAt(b, s, payload, j), sid, maxPending, j, PickFrom(ReplyAt(b, s, payload, j)).data)
         == (StateAt(b, s, payload, k), Final(PickFrom(ReplyAt(b, s, payload, k)), sid))
    decreases k - j
  {
    hide PickFrom, Check, AfterReceive, ReceiveReplies, AfterRequest, RequestReplies;
    if j < k {
      assert PendingAt(b, s, payload, j);
      if PickFrom(ReplyAt(b, s, payload, j + 1)).Got? {
        AwaitSettles(b, s, payload, sid, maxPending, j + 1, k);
      } else {
        assert !PendingAt(b, s, payload, j + 1);
      }
    }
  }

  lemma {:induction false} AwaitExhausts(b: Backend, s: State, payload: Bytes, sid: byte, maxPending: int, j: nat)
    requires j <= Budget(maxPending)
    requires forall i | 0 <= i <= Budget(maxPending) :: PendingAt(b, s, payload, i)
    ensures PickFrom(ReplyAt(b, s, payload, j)).Got?
    ensures AwaitFinal(b, StateAt(b, s, payload, j), sid, maxPending, j, PickFrom(ReplyAt(b, s, payload, j)).data)
         == (StateAt(b, s, payload, Budget(maxPending)), TooManyPending)
    decreases Budget(maxPending) - j
  {
    hide PickFrom, Check, AfterReceive, ReceiveReplies, AfterRequest, RequestReplies;
    assert PendingAt(b, s, payload, j);
    if j < Budget(maxPending) {
      AwaitExhausts(b, s, payload, sid, maxPending, j + 1);
    }
  }

  /** If the wait is over at the k-th receive, that reply decides, and the
      transport has been asked once and read k times. */
  lemma SendSettles(b: Backend, s: State, maxPending: int, sid: byte, data: Bytes, k: nat)
    requires s.open
    requires var payload := [sid] + data;
      WaitedThrough(b, s, payload, maxPending, k) && !PendingAt(b, s, payload, k)
    ensures var payload := [sid] + data;
      SendOn(b, s, maxPending, sid, data, true)
      == (StateAt(b, s, payload, k), Final(PickFrom(ReplyAt(b, s, payload, k)), sid))
  {
    hide PickFrom, Check, AfterReceive, ReceiveReplies, AfterRequest, RequestReplies, AwaitFinal;
    var payload := [sid] + data;
    if PickFrom(ReplyAt(b, s, payload, 0)).Got? {
      AwaitSettles(b, s, payload, sid, maxPending, 0, k);
    } else {
      assert !PendingAt(b, s, payload, 0);
    }
  }

  lemma SendExhausts(b: Backend, s: State, maxPending: int, sid: byte, data: Bytes)
    requires s.open
    requires forall i | 0 <= i <= Budget(maxPending) :: PendingAt(b, s, [sid] + data, i)
    ensures SendOn(b, s, maxPending, sid, data, true)
         == (StateAt(b, s, [sid] + data, Budget(maxPending)), TooManyPending)
  {
    hide PickFrom, Check, AfterReceive, ReceiveReplies, AfterRequest, RequestReplies, AwaitFinal;
    AwaitExhausts(b, s, [sid] + data, sid, maxPending, 0);
  }

  /** Where the wait ends: at the first reply that is not pending, if it comes
      within the budget. */
  lemma {:induction false} FirstSettled(b: Backend, s: State, payload: Bytes, maxPending: int, n: nat) returns (k: nat)
    requires n <= Budget(maxPending) && WaitedThrough(b, s, payload, maxPending, n)
    ensures WaitedThrough(b, s, payload, maxPending, k)
    ensures PendingAt(b, s, payload, k) ==> k == Budget(maxPending)
    decreases Budget(maxPending) - n
  {
    hide PendingAt;
    if n < Budget(maxPending) && PendingAt(b, s, payload, n) {
      k := FirstSettled(b, s, payload, maxPending, n + 1);
    } else {
      k := n;
    }
  }

  lemma SendIsDecided(b: Backend, s: State, maxPending: int, sid: byte, data: Bytes) returns (k: nat)
    requires s.open
    ensures var payload := [sid] + data;
      && WaitedThrough(b, s, payload, maxPending, k)
      && SendOn(b, s, maxPending, sid, data, true)
         == (StateAt(b, s, payload, k),
             if PendingAt(b, s, payload, k) then TooManyPending else Final(PickFrom(ReplyAt(b, s, payload, k)), sid))
      && (PendingAt(b, s, payload, k) ==> k == Budget(maxPending))
  {
    hide PendingAt, SendOn, StateAt, ReplyAt, Final;
    k := FirstSettled(b, s, [sid] + data, maxPending, 0);
    if PendingAt(b, s, [sid] + data, k) {
      SendExhausts(b, s, maxPending, sid, data);
    } else {
      SendSettles(b, s, maxPending, sid, data, k);
    }
  }

  lemma {:induction false} CallsAt(b: Backend, s: State, payload: Bytes, k: nat)
    ensures var t := StateAt(b, s, payload, k);
      t.open == s.open && t.sent == s.sent + [payload] && t.receives == s.receives + k
  {
    if k != 0 {
      CallsAt(b, s, payload, k - 1);
    }
  }

  /** On every transport: one request, and no more receives than the budget. */
  lemma SendIsBounded(b: Backend, s: State, maxPending: int, sid: byte, data: Bytes, expectResponse: bool)
    requires s.open
    ensures var t := SendOn(b, s, maxPending, sid, data, expectResponse).0;
      && t.open && t.sent == s.sent + [[sid] + data]
      && s.receives <= t.receives <= s.receives + Budget(maxPending)
      && (!expectResponse ==> t.receives == s.receives)
  {
    hide AwaitFinal, PendingAt, Final;
    if expectResponse {
      var k := SendIsDecided(b, s, maxPending, sid, data);
      CallsAt(b, s, [sid] + data, k);
    }
  }

  /** The client returns `p` exactly when some pending replies within the budget
      are followed by the positive response carrying `p`: the service plus 40, as
      a byte.  The service whose positive id would be 7F can never be answered. */
  lemma AnswerExactly(b: Backend, s: State, maxPending: int, sid: byte, data: Bytes, p: Bytes)
    requires s.open
    ensures SendOn(b, s, maxPending, sid, data, true).1 == Answer(p)
       <==> sid != 0x3F && exists k ::
              WaitedThrough(b, s, [sid] + data, maxPending, k)
              && PickFrom(ReplyAt(b, s, [sid] + data, k)) == Got([if sid < 0xC0 then sid + 0x40 else sid - 0xC0] + p)
  {
    hide SendOn, PendingAt, StateAt, ReplyAt, PickFrom;
    var payload := [sid] + data;
    var id: byte := if sid < 0xC0 then sid + 0x40 else sid - 0xC0;
    assert PositiveSid(sid) == id && (id == 0x7F <==> sid == 0x3F);
    var k := SendIsDecided(b, s, maxPending, sid, data);
    PendingIsNegative(b, s, payload, k);
    if SendOn(b, s, maxPending, sid, data, true).1 == Answer(p) {
      var resp := PickFrom(ReplyAt(b, s, payload, k)).data;
      assert resp == [id] + p;
    }
    if sid != 0x3F && exists k ::
        WaitedThrough(b, s, payload, maxPending, k) && PickFrom(ReplyAt(b, s, payload, k)) == Got([id] + p) {
      var m :| WaitedThrough(b, s, payload, maxPending, m) && PickFrom(ReplyAt(b, s, payload, m)) == Got([id] + p);
      PendingIsNegative(b, s, payload, m);
      SendSettles(b, s, maxPending, sid, data, m);
    }
  }

  /** The k-th picked reply ends the wait: it comes within the budget behind
      pending replies only, and is not pending itself. */
  ghost predicate EndsAt(b: Backend, s: State, payload: Bytes, maxPending: int, k: nat) {
    WaitedThrough(b, s, payload, maxPending, k) && !PendingAt(b, s, payload, k)
  }

  /** A refusal is reported exactly when the reply that ends the wait starts with
      7F; its code is the third byte, or 10 if there is none. */
  lemma RefusalExactly(b: Backend, s: State, maxPending: int, sid: byte, data: Bytes, who: byte, nrc: byte)
    requires s.open
    ensures SendOn(b, s, maxPending, sid, data, true).1 == Negative(who, nrc)
       <==> who == sid && exists k ::
              EndsAt(b, s, [sid] + data, maxPending, k)
              && var r := PickFrom(ReplyAt(b, s, [sid] + data, k));
                 r.Got? && r.data[0] == 0x7F && nrc == if |r.data| >= 3 then r.data[2] else 0x10
  {
    hide SendOn, PendingAt, StateAt, ReplyAt, PickFrom, WaitedThrough;
    var payload := [sid] + data;
    var k := SendIsDecided(b, s, maxPending, sid, data);
    if SendOn(b, s, maxPending, sid, data, true).1 == Negative(who, nrc) {
      assert EndsAt(b, s, payload, maxPending, k);
    }
    if m: nat :|
        EndsAt(b, s, payload, maxPending, m)
        && var r := PickFrom(ReplyAt(b, s, payload, m));
           r.Got? && r.data[0] == 0x7F && nrc == if |r.data| >= 3 then r.data[2] else 0x10 {
      SendSettles(b, s, maxPending, sid, data, m);
    }
  }

  /** A foreign reply is reported exactly when the one that ends the wait starts
      with neither 7F nor the positive id. */
  lemma UnexpectedExactly(b: Backend, s: State, maxPending: int, sid: byte, data: Bytes, got: byte)
    requires s.open
    ensures SendOn(b, s, maxPending, sid, data, true).1 == Unexpected(got)
       <==> got != 0x7F && got != (sid + 0x40) % 256 && exists k ::
              EndsAt(b, s, [sid] + data, maxPending, k)
              && var r := PickFrom(ReplyAt(b, s, [sid] + data, k)); r.Got? && r.data[0] == got
  {
    hide SendOn, PendingAt, StateAt, ReplyAt, PickFrom, WaitedThrough;
    var payload := [sid] + data;
    var k := SendIsDecided(b, s, maxPending, sid, data);
    if SendOn(b, s, maxPending, sid, data, true).1 == Unexpected(got) {
      assert EndsAt(b, s, payload, maxPending, k);
    }
    if m: nat :|
        EndsAt(b, s, payload, maxPending, m)
        && var r := PickFrom(ReplyAt(b, s, payload, m)); r.Got? && r.data[0] == got {
      SendSettles(b, s, maxPending, sid, data, m);
    }
  }

  /** Service 3F: over every transport no reply is ever its answer, and the very
      bytes that its positive response would have read as a refusal. */
  lemma Service3FIsNeverAnswered(b: Backend, s: State, maxPending: int, data: Bytes, p: Bytes)
    requires s.open
    ensures SendOn(b, s, maxPending, 0x3F, data, true).1 != Answer(p)
    ensures Check([0x7F] + p, 0x3F) == Negative(0x3F, if |p| >= 2 then p[1] else 0x10)
  {
    hide SendOn, WaitedThrough, PickFrom;
    AnswerExactly(b, s, maxPending, 0x3F, data, p);
  }

  lemma PendingIsNegative(b: Backend, s: State, payload: Bytes, k: nat)
    ensures PendingAt(b, s, payload, k) ==>
      PickFrom(ReplyAt(b, s, payload, k)).Got? && PickFrom(ReplyAt(b, s, payload, k)).data[0] == 0x7F
  {
    hide PickFrom, ReplyAt;
  }

  /** It times out exactly when a wanted reply is missing or every reply up to
      the budget is pending. */
  lemma TimeoutExactly(b: Backend, s: State, maxPending: int, sid: byte, data: Bytes)
    requires s.open
    ensures SendOn(b, s, maxPending, sid, data, true).1 == NoResponse
       <==> exists k :: WaitedThrough(b, s, [sid] + data, maxPending, k)
                     && PickFrom(ReplyAt(b, s, [sid] + data, k)) == Silent
    ensures SendOn(b, s, maxPending, sid, data, true).1 == TooManyPending
       <==> forall i | 0 <= i <= Budget(maxPending) :: PendingAt(b, s, [sid] + data, i)
    ensures SendOn(b, s, maxPending, sid, data, true).1 == TransportFailed
       <==> exists k :: WaitedThrough(b, s, [sid] + data, maxPending, k)
                     && PickFrom(ReplyAt(b, s, [sid] + data, k)) == Lost
  {
    hide SendOn, PendingAt, StateAt, ReplyAt, PickFrom;
    var payload := [sid] + data;
    var k := SendIsDecided(b, s, maxPending, sid, data);
    PendingIsNegative(b, s, payload, k);
    if exists k :: WaitedThrough(b, s, payload, maxPending, k) && PickFrom(ReplyAt(b, s, payload, k)) == Silent {
      var m :| WaitedThrough(b, s, payload, maxPending, m) && PickFrom(ReplyAt(b, s, payload, m)) == Silent;
      PendingIsNegative(b, s, payload, m);
      SendSettles(b, s, maxPending, sid, data, m);
    }
    if exists k :: WaitedThrough(b, s, payload, maxPending, k) && PickFrom(ReplyAt(b, s, payload, k)) == Lost {
      var m :| WaitedThrough(b, s, payload, maxPending, m) && PickFrom(ReplyAt(b, s, payload, m)) == Lost;
      PendingIsNegative(b, s, payload, m);
      SendSettles(b, s, maxPending, sid, data, m);
    }
    if forall i | 0 <= i <= Budget(maxPending) :: PendingAt(b, s, payload, i) {
      SendExhausts(b, s, maxPending, sid, data);
    }
  }

  /** A negative response is never the response-pending code. */
  lemma NegativeIsFinal(b: Backend, s: State, maxPending: int, sid: byte, data: Bytes)
    requires s.open && SendOn(b, s, maxPending, sid, data, true).1.Negative?
    ensures SendOn(b, s, maxPending, sid, data, true).1.requestSid == sid
    ensures SendOn(b, s, maxPending, sid, data, true).1.nrc != RESPONSE_PENDING
  {
    hide SendOn, StateAt, ReplyAt, PickFrom;
    var k := SendIsDecided(b, s, maxPending, sid, data);
  }

  // ----- no leakage over the in-memory table -----

  lemma {:induction false} TableFollowups(b: Backend, s: State, payload: Bytes, i: nat)
    requires b.Table?
    ensures var flat := TableReplies(b, payload);
      StateAt(b, s, payload, i).followups == if i + 1 < |flat| then flat[i + 1..] else []
  {
    hide TableReplies;
    if i != 0 {
      TableFollowups(b, s, payload, i - 1);
    }
  }

  /** The reply lists are the flattened table entry, one reply at a time. */
  lemma TableReplyAt(b: Backend, s: State, payload: Bytes, i: nat)
    requires b.Table?
    ensures var flat := TableReplies(b, payload);
      ReplyAt(b, s, payload, i) == Replies(if i < |flat| then [flat[i]] else [])
  {
    hide TableReplies;
    if i != 0 {
      TableFollowups(b, s, payload, i - 1);
    }
  }

  /** What a table entry alone says about a request. */
  function FreshOutcome(b: Backend, open: bool, maxPending: int, sid: byte, data: Bytes, expectResponse: bool)
    : Outcome
  {
    SendOn(b, State(open, [], [], 0, 0), maxPending, sid, data, expectResponse).1
  }

  /** Over the table the outcome of a call does not depend on anything earlier
      calls have left behind. */
  lemma OutcomeIsFresh(b: Backend, s: State, maxPending: int, sid: byte, data: Bytes, expectResponse: bool)
    requires b.Table?
    ensures SendOn(b, s, maxPending, sid, data, expectResponse).1
         == FreshOutcome(b, s.open, maxPending, sid, data, expectResponse)
  {
    if s.open && expectResponse {
      hide SendOn, StateAt, ReplyAt, PickFrom, IsPending, Check;
      var f := State(s.open, [], [], 0, 0);
      var payload := [sid] + data;
      var k := SendIsDecided(b, f, maxPending, sid, data);
      forall i: nat
        ensures PendingAt(b, s, payload, i) == PendingAt(b, f, payload, i)
        ensures PickFrom(ReplyAt(b, s, payload, i)) == PickFrom(ReplyAt(b, f, payload, i))
      {
        TableReplyAt(b, s, payload, i);
        TableReplyAt(b, f, payload, i);
      }
      if PendingAt(b, f, payload, k) {
        forall i | 0 <= i <= Budget(maxPending) ensures PendingAt(b, s, payload, i) {
          assert i < k || i == k;
        }
        SendExhausts(b, s, maxPending, sid, data);
      } else {
        SendSettles(b, s, maxPending, sid, data, k);
      }
    }
  }

  /** The outcome is decided by the flattened replies of the payload alone. */
  lemma SameEntrySameOutcome(b: Backend, c: Backend, s: State, maxPending: int, sid: byte, data: Bytes)
    requires b.Table? && c.Table? && s.open && TableReplies(b, [sid] + data) == TableReplies(c, [sid] + data)
    ensures SendOn(b, s, maxPending, sid, data, true) == SendOn(c, s, maxPending, sid, data, true)
  {
    hide TableReplies, PickFrom, IsPending, Check;
    var payload := [sid] + data;
    var t := AfterRequest(b, s, payload);
    assert t == AfterRequest(c, s, payload);
    if PickFrom(RequestReplies(b, s, payload)).Got? {
      AwaitOnTables(b, c, t, sid, maxPending, 0, PickFrom(RequestReplies(b, s, payload)).data);
    }
  }

  lemma {:induction false} AwaitOnTables(
      b: Backend, c: Backend, s: State, sid: byte, maxPending: int, pending: nat, resp: Bytes)
    requires b.Table? && c.Table? && resp != []
    ensures AwaitFinal(b, s, sid, maxPending, pending, resp) == AwaitFinal(c, s, sid, maxPending, pending, resp)
    decreases maxPending - pending
  {
    hide PickFrom, Check;
    if IsPending(resp) && pending + 1 <= maxPending {
      var next := PickFrom(ReceiveReplies(b, s));
      if next.Got? {
        AwaitOnTables(b, c, AfterReceive(b, s), sid, maxPending, pending + 1, next.data);
      }
    }
  }

  // ----- whole runs -----

  datatype Op = Open | Close | Send(sid: byte, data: Bytes, expectResponse: bool)

  function Step(b: Backend, s: State, maxPending: int, op: Op): (State, seq<Outcome>) {
    match op
    case Open => (s.(open := true), [])
    case Close => (s.(open := false), [])
    case Send(sid, data, wants) =>
      var (t, outcome) := SendOn(b, s, maxPending, sid, data, wants);
      (t, [outcome])
  }

  function RunOps(b: Backend, s: State, maxPending: int, ops: seq<Op>): (State, seq<Outcome>)
    decreases |ops|
  {
    if ops == [] then (s, [])
    else
      var (t, first) := Step(b, s, maxPending, ops[0]);
      var (u, rest) := RunOps(b, t, maxPending, ops[1..]);
      (u, first + rest)
  }

  /** The run, call by call on a transport that has forgotten everything. */
  function Expected(b: Backend, open: bool, maxPending: int, ops: seq<Op>): (seq<Bytes>, seq<Outcome>)
    decreases |ops|
  {
    if ops == [] then ([], [])
    else
      match ops[0]
      case Open => Expected(b, true, maxPending, ops[1..])
      case Close => Expected(b, false, maxPending, ops[1..])
      case Send(sid, data, wants) =>
        var (sent, outcomes) := Expected(b, open, maxPending, ops[1..]);
        (if open then [[sid] + data] + sent else sent, [FreshOutcome(b, open, maxPending, sid, data, wants)] + outcomes)
  }

  /** In every run over a table-backed transport, whatever its state at the start,
      every outcome is that of a fresh transport, and the record of sent payloads
      grows by exactly the payloads sent while it was open. */
  lemma {:induction false} RunsDoNotLeak(b: Backend, s: State, maxPending: int, ops: seq<Op>)
    requires b.Table?
    ensures var (t, outcomes) := RunOps(b, s, maxPending, ops);
      var (sent, expected) := Expected(b, s.open, maxPending, ops);
      outcomes == expected && t.sent == s.sent + sent
    decreases |ops|
  {
    hide SendOn, FreshOutcome;
    if ops != [] {
      var t := Step(b, s, maxPending, ops[0]).0;
      RunsDoNotLeak(b, t, maxPending, ops[1..]);
      match ops[0] {
        case Send(sid, data, wants) =>
          OutcomeIsFresh(b, s, maxPending, sid, data, wants);
          if s.open {
            SendIsBounded(b, s, maxPending, sid, data, wants);
          } else {
            ClosedSendsNothing(b, s, maxPending, sid, data, wants);
          }
        case _ =>
      }
    }
  }

  lemma ClosedSendsNothing(b: Backend, s: State, maxPending: int, sid: byte, data: Bytes, expectResponse: bool)
    requires !s.open
    ensures SendOn(b, s, maxPending, sid, data, expectResponse) == (s, TransportFailed)
  {
  }
}
