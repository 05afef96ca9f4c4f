/** The request/receive interface of a transport, as state.

    One class stands for the interchangeable backends.  The in-memory backend
    answers from a table of reply values or from a function; `Scripted` stands for
    any other backend: call after call it does what its script says next, which is
    to hand out any list of replies or to raise. */
module Transport {
  import opened NatBits
  import opened Text
  import opened IsoTp
  import opened Elm

  /** A reply value of the in-memory table. */
  datatype Value = Nothing | Raw(data: Bytes) | One(response: EcuResponse) | Many(items: seq<Value>)

  function Flatten(v: Value): seq<EcuResponse>
    decreases v, 1
  {
    match v
    case Nothing => []
    case Raw(data) => [EcuResponse(0x7E8, data)]
    case One(response) => [response]
    case Many(items) => FlattenAll(items)
  }

  function FlattenAll(items: seq<Value>): seq<EcuResponse>
    decreases items, 0
  {
    if items == [] then [] else Flatten(items[0]) + FlattenAll(items[1..])
  }

  lemma {:induction false} FlattenAppend(items: seq<Value>, last: Value)
    ensures FlattenAll(items + [last]) == FlattenAll(items) + Flatten(last)
    decreases |items|
  {
    var all := items + [last];
    if items == [] {
      assert all[1..] == [];
      assert FlattenAll([]) == [];
    } else {
      assert all[1..] == items[1..] + [last];
      FlattenAppend(items[1..], last);
    }
  }

  method AsResponses(value: Value) returns (out: seq<EcuResponse>)
    ensures out == Flatten(value)
    decreases value
  {
    match value {
      case Nothing => out := [];
      case Raw(data) => out := [EcuResponse(0x7E8, data)];
      case One(response) => out := [response];
      case Many(items) =>
        out := [];
        for i := 0 to |items|
          invariant out == FlattenAll(items[..i])
        {
          var more := AsResponses(items[i]);
          FlattenAppend(items[..i], items[i]);
          assert items[..i + 1] == items[..i] + [items[i]];
          out := out + more;
        }
        assert items[..|items|] == items;
    }
  }

  /** What a call hands back; `Broken` is the exception of a transport. */
  datatype Reply = Replies(list: seq<EcuResponse>) | Broken

  datatype Backend =
    | Table(replies: map<Bytes, Value>)
    | Callable(answer: Bytes -> Reply)
    | Scripted(script: seq<Reply>)

  /** `receives` counts the calls of receive. */
  datatype State = State(open: bool, sent: seq<Bytes>, followups: seq<EcuResponse>, position: nat, receives: nat)

  // ----- the calls on states -----

  /** All replies the table holds for a payload, in order. */
  function TableReplies(b: Backend, payload: Bytes): seq<EcuResponse>
    requires b.Table?
  {
    if payload in b.replies then Flatten(b.replies[payload]) else []
  }

  function ScriptAt(b: Backend, position: nat): Reply
    requires b.Scripted?
  {
    if position < |b.script| then b.script[position] else Replies([])
  }

  function FirstOf(list: seq<EcuResponse>): seq<EcuResponse> {
    if |list| > 1 then list[..1] else list
  }

  function RestOf(list: seq<EcuResponse>): seq<EcuResponse> {
    if |list| > 1 then list[1..] else []
  }

  function RequestReplies(b: Backend, s: State, payload: Bytes): Reply {
    match b
    case Table(_) => Replies(FirstOf(TableReplies(b, payload)))
    case Callable(answer) => answer(payload)
    case Scripted(_) => ScriptAt(b, s.position)
  }

  function AfterRequest(b: Backend, s: State, payload: Bytes): State {
    s.(sent := s.sent + [payload],
       followups := if b.Table? then RestOf(TableReplies(b, payload)) else [],
       position := if b.Scripted? then s.position + 1 else s.position)
  }

  function ReceiveReplies(b: Backend, s: State): Reply {
    if b.Scripted? then ScriptAt(b, s.position) else Replies(if s.followups == [] then [] else [s.followups[0]])
  }

  function AfterReceive(b: Backend, s: State): State {
    s.(followups := if b.Scripted? || s.followups == [] then s.followups else s.followups[1..],
       position := if b.Scripted? then s.position + 1 else s.position,
       receives := s.receives + 1)
  }

  /** A request over the table hands out the whole entry exactly when it holds
      at most one reply. */
  lemma WholeEntryExactly(b: Backend, s: State, payload: Bytes)
    requires b.Table?
    ensures RequestReplies(b, s, payload) == Replies(TableReplies(b, payload)) <==> |TableReplies(b, payload)| <= 1
  {
    hide TableReplies;
  }

  /** Two responses are not returned in one piece. */
  lemma TwoResponsesAreSplit(payload: Bytes, s: State, first: EcuResponse, second: EcuResponse)
    ensures var b := Table(map[payload := Many([One(first), One(second)])]);
      && RequestReplies(b, s, payload) == Replies([first])
      && AfterRequest(b, s, payload).followups == [second]
  {
    var items := [One(first), One(second)];
    assert items[1..] == [One(second)] && items[1..][1..] == [];
    assert FlattenAll(items[1..]) == Flatten(items[1]) + FlattenAll([]);
    assert FlattenAll(items) == [first, second];
  }

  // ----- the object -----

  class Channel {
    const backend: Backend
    var open: bool
    var sent: seq<Bytes>
    var followups: seq<EcuResponse>
    var position: nat
    ghost var receives: nat

    ghost function View(): State
      reads this
    {
      State(open, sent, followups, position, receives)
    }

    constructor (backend: Backend)
      ensures this.backend == backend && View() == State(false, [], [], 0, 0)
    {
      this.backend := backend;
      open, sent, followups, position, receives := false, [], [], 0, 0;
    }

    method Open()
      modifies this
      ensures View() == old(View()).(open := true)
    {
      open := true;
    }

    method Close()
      modifies this
      ensures View() == old(View()).(open := false)
    {
      open := false;
    }

    /** A transport that is not open raises and stays as it is. */
    method Request(payload: Bytes) returns (reply: Reply)
      modifies this
      ensures !old(open) ==> reply == Broken && View() == old(View())
      ensures old(open) ==> reply == RequestReplies(backend, old(View()), payload)
      ensures old(open) ==> View() == AfterRequest(backend, old(View()), payload)
    {
      if !open {
        return Broken;
      }
      sent := sent + [payload];
      followups := [];
      match backend {
        case Callable(answer) =>
          return answer(payload);
        case Table(table) =>
          var responses := AsResponses(if payload in table then table[payload] else Nothing);
          if |responses| > 1 {
            followups := responses[1..];
            return Replies(responses[..1]);
          }
          return Replies(responses);
        case Scripted(script) =>
          position := position + 1;
          return if position <= |script| then script[position - 1] else Replies([]);
      }
    }

    method Receive() returns (reply: Reply)
      modifies this
      ensures reply == ReceiveReplies(backend, old(View())) && View() == AfterReceive(backend, old(View()))
    {
      receives := receives + 1;
      if backend.Scripted? {
        position := position + 1;
        return if position <= |backend.script| then backend.script[position - 1] else Replies([]);
      }
      if followups == [] {
        return Replies([]);
      }
      reply := Replies([followups[0]]);
      followups := followups[1..];
    }
  }
}
