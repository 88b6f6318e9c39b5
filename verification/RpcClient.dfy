// The TrueNAS JSON-RPC client: one pooled socket, one request in flight, one retry, and
// replies that arrive late, out of order, or never.
module RpcClient {
  import opened Options

  const LOGIN := "auth.login_with_api_key"

  datatype Answer<V> = Fault | Value(value: V, isTrue: bool)

  // What one recv() brings. Cancelled is the task being cancelled while it waits.
  datatype Incoming<V> = Reply(id: nat, answer: Answer<V>) | Notification | Garbage | Cancelled

  datatype Outcome<V> = Got(value: V) | Refused | Transport | Interrupted

  datatype Request = Request(id: nat, name: string)

  // An exchange waits for the reply with its own id; when nothing more arrives it times out.
  function Receive<V>(id: nat, name: string, incoming: seq<Incoming<V>>): Outcome<V> {
    if incoming == [] then Transport
    else match incoming[0]
      case Garbage => Transport
      case Cancelled => Interrupted
      case Notification => Receive(id, name, incoming[1..])
      case Reply(other, answer) =>
        if other != id then Receive(id, name, incoming[1..])
        else if answer.Fault? || (name == LOGIN && !answer.isTrue) then Refused
        else Got(answer.value)
  }

  // The environment of one attempt. `connects` and `loginSends` matter only without a socket.
  datatype Attempt<V> = Attempt(connects: bool, loginSends: bool, loginIncoming: seq<Incoming<V>>,
                                sends: bool, incoming: seq<Incoming<V>>)

  datatype State = State(pooled: bool, requestId: nat, log: seq<Request>)

  function Issue(s: State, name: string): State {
    s.(requestId := s.requestId + 1, log := s.log + [Request(s.requestId + 1, name)])
  }

  function Exchange<V>(s: State, name: string, sends: bool, incoming: seq<Incoming<V>>): Outcome<V> {
    if sends then Receive(s.requestId, name, incoming) else Transport
  }

  // Open and authenticate: the socket is pooled only once the login was accepted.
  function Connect<V>(s: State, a: Attempt<V>): (State, Option<Outcome<V>>) {
    if s.pooled then (s, None)
    else if !a.connects then (s, Some(Transport))
    else
      var t := Issue(s, LOGIN);
      var login := Exchange(t, LOGIN, a.loginSends, a.loginIncoming);
      if login.Got? then (t.(pooled := true), None) else (t, Some(login))
  }

  function Try<V>(s: State, name: string, a: Attempt<V>): (State, Outcome<V>) {
    var (t, failure) := Connect(s, a);
    if failure.Some? then (t, failure.value)
    else
      var u := Issue(t, name);
      (u, Exchange(u, name, a.sends, a.incoming))
  }

  // A transport failure drops the socket; a refusal or a cancellation does not.
  function Settled<V>(s: State, outcome: Outcome<V>): State { if outcome.Transport? then s.(pooled := false) else s }

  function Call<V>(s: State, name: string, first: Attempt<V>, second: Attempt<V>): (State, Outcome<V>) {
    var (t, outcome) := Try(s, name, first);
    if !outcome.Transport? then (t, outcome)
    else
      var (u, again) := Try(Settled(t, outcome), name, second);
      (Settled(u, again), again)
  }

  class TrueNASClient<V> {
    var pooled: bool
    var requestId: nat
    var log: seq<Request>

    constructor ()
      ensures Current() == State(false, 0, [])
    {
      pooled, requestId, log := false, 0, [];
    }

    function Current(): State
      reads this
    {
      State(pooled, requestId, log)
    }

    method NextId(name: string)
      modifies this
      ensures Current() == Issue(old(Current()), name)
    {
      requestId := requestId + 1;
      log := log + [Request(requestId, name)];
    }

    method WsRequest(name: string, sends: bool, incoming: seq<Incoming<V>>) returns (outcome: Outcome<V>)
      ensures outcome == Exchange(Current(), name, sends, incoming)
    {
      if !sends {
        return Transport;
      }
      for i := 0 to |incoming|
        invariant Receive(requestId, name, incoming) == Receive(requestId, name, incoming[i..])
      {
        assert incoming[i..][1..] == incoming[i + 1..];
        match incoming[i]
        case Garbage => return Transport;
        case Cancelled => return Interrupted;
        case Notification =>
        case Reply(id, answer) =>
          if id == requestId {
            if answer.Fault? || (name == LOGIN && !answer.isTrue) {
              return Refused;
            }
            return Got(answer.value);
          }
      }
      return Transport;
    }

    method ConnectSocket(a: Attempt<V>) returns (failure: Option<Outcome<V>>)
      modifies this
      ensures (Current(), failure) == Connect(old(Current()), a)
    {
      if pooled {
        return None;
      }
      if !a.connects {
        return Some(Transport);
      }
      NextId(LOGIN);
      var login := WsRequest(LOGIN, a.loginSends, a.loginIncoming);
      if !login.Got? {
        return Some(login);
      }
      pooled := true;
      return None;
    }

    method CallWs(name: string, first: Attempt<V>, second: Attempt<V>) returns (outcome: Outcome<V>)
      modifies this
      ensures (Current(), outcome) == Call(old(Current()), name, first, second)
    {
      outcome := Transport;
      for attempt := 1 to 3
        invariant attempt == 1 ==> Current() == old(Current())
        invariant attempt >= 2 ==> Try(old(Current()), name, first).1.Transport?
        invariant attempt == 2 ==> Current() == Settled(Try(old(Current()), name, first).0, Outcome<V>.Transport)
        invariant attempt == 3 ==> outcome.Transport? && (Current(), outcome) == Call(old(Current()), name, first, second)
      {
        var script := if attempt == 1 then first else second;
        var failure := ConnectSocket(script);
        if failure.Some? {
          outcome := failure.value;
        } else {
          NextId(name);
          outcome := WsRequest(name, script.sends, script.incoming);
        }
        if !outcome.Transport? {
          return;
        }
        pooled := false;
      }
    }
  }

  // ------------------------------------------------------------------ one call

  lemma {:induction false} ReceivedIsReply<V>(id: nat, name: string, incoming: seq<Incoming<V>>)
    ensures match Receive(id, name, incoming)
            case Got(v) => exists k :: 0 <= k < |incoming| && incoming[k].Reply? && incoming[k].id == id
                                       && incoming[k].answer.Value? && incoming[k].answer.value == v
                                       && forall j :: 0 <= j < k ==> !(incoming[j].Reply? && incoming[j].id == id)
            case Refused => exists k :: 0 <= k < |incoming| && incoming[k].Reply? && incoming[k].id == id
            case _ => true
  {
    if incoming != [] && !incoming[0].Garbage? && !incoming[0].Cancelled?
       && !(incoming[0].Reply? && incoming[0].id == id) {
      ReceivedIsReply(id, name, incoming[1..]);
      var rest := incoming[1..];
      match Receive(id, name, rest)
      case Got(v) =>
        var k :| 0 <= k < |rest| && rest[k].Reply? && rest[k].id == id && rest[k].answer.Value? && rest[k].answer.value == v
                 && forall j :: 0 <= j < k ==> !(rest[j].Reply? && rest[j].id == id);
        assert incoming[k + 1] == rest[k];
        forall j | 0 <= j < k + 1 ensures !(incoming[j].Reply? && incoming[j].id == id) {
          if j > 0 {
            assert incoming[j] == rest[j - 1];
          }
        }
      case Refused =>
        var k :| 0 <= k < |rest| && rest[k].Reply? && rest[k].id == id;
        assert incoming[k + 1] == rest[k];
      case _ =>
    }
  }

  function CountOf(log: seq<Request>, name: string): nat {
    if log == [] then 0
    else CountOf(log[..|log| - 1], name) + if log[|log| - 1].name == name then 1 else 0
  }

  lemma CountAppend(log: seq<Request>, r: Request, name: string)
    ensures CountOf(log + [r], name) == CountOf(log, name) + if r.name == name then 1 else 0
  {
    assert (log + [r])[..|log|] == log;
  }

  lemma TryCounts<V>(s: State, name: string, a: Attempt<V>)
    requires name != LOGIN
    ensures var t := Try(s, name, a).0;
            CountOf(t.log, name) <= CountOf(s.log, name) + 1 && CountOf(t.log, LOGIN) <= CountOf(s.log, LOGIN) + 1
            && s.log <= t.log
  {
    var connected := Connect(s, a).0;
    CountAppend(s.log, Request(s.requestId + 1, LOGIN), name);
    CountAppend(s.log, Request(s.requestId + 1, LOGIN), LOGIN);
    CountAppend(connected.log, Request(connected.requestId + 1, name), name);
    CountAppend(connected.log, Request(connected.requestId + 1, name), LOGIN);
  }

  // One call issues its request at most twice, with at most two logins, and makes no second
  // attempt after a refusal or a cancellation. A call that ends in a transport failure leaves
  // no socket pooled; one that ends refused or answered has dropped nothing it was using.
  lemma CallIsBounded<V>(s: State, name: string, first: Attempt<V>, second: Attempt<V>)
    requires name != LOGIN
    ensures var (t, outcome) := Call(s, name, first, second);
            && s.log <= t.log
            && CountOf(t.log, name) <= CountOf(s.log, name) + 2
            && CountOf(t.log, LOGIN) <= CountOf(s.log, LOGIN) + 2
            && (!Try(s, name, first).1.Transport? ==> (t, outcome) == Try(s, name, first))
            && (outcome.Transport? ==> !t.pooled)
            && (outcome.Got? ==> t.pooled)
  {
    CallCounts(s, name, first, second);
    CallPools(s, name, first, second);
  }

  lemma CallCounts<V>(s: State, name: string, first: Attempt<V>, second: Attempt<V>)
    requires name != LOGIN
    ensures var t := Call(s, name, first, second).0;
            s.log <= t.log && CountOf(t.log, name) <= CountOf(s.log, name) + 2 && CountOf(t.log, LOGIN) <= CountOf(s.log, LOGIN) + 2
  {
    TryCounts(s, name, first);
    var (t, outcome) := Try(s, name, first);
    TryCounts(Settled(t, outcome), name, second);
  }

  lemma CallPools<V>(s: State, name: string, first: Attempt<V>, second: Attempt<V>)
    ensures var (t, outcome) := Call(s, name, first, second);
            (outcome.Transport? ==> !t.pooled) && (outcome.Got? ==> t.pooled)
  {
  }

  // ------------------------------------------------------------------ any run of calls

  datatype Ask<V> = Ask(name: string, first: Attempt<V>, second: Attempt<V>)

  function After<V>(asks: seq<Ask<V>>, n: nat): State
    requires n <= |asks|
  {
    if n == 0 then State(false, 0, [])
    else Call(After(asks, n - 1), asks[n - 1].name, asks[n - 1].first, asks[n - 1].second).0
  }

  function OutcomeOf<V>(asks: seq<Ask<V>>, k: nat): Outcome<V>
    requires k < |asks|
  {
    Call(After(asks, k), asks[k].name, asks[k].first, asks[k].second).1
  }

  predicate Numbered(s: State) {
    s.requestId == |s.log| && forall i :: 0 <= i < |s.log| ==> s.log[i].id == i + 1
  }

  lemma TryNumbers<V>(s: State, name: string, a: Attempt<V>)
    requires Numbered(s)
    ensures Numbered(Try(s, name, a).0)
  {
    assert Numbered(Issue(s, LOGIN));
    assert Numbered(Connect(s, a).0);
  }

  // Ids are never reused, across reconnects and for the life of the client.
  lemma {:induction false} IdsAreNeverReused<V>(asks: seq<Ask<V>>, n: nat)
    requires n <= |asks|
    ensures Numbered(After(asks, n))
  {
    if n > 0 {
      IdsAreNeverReused(asks, n - 1);
      var s, ask := After(asks, n - 1), asks[n - 1];
      TryNumbers(s, ask.name, ask.first);
      var (t, outcome) := Try(s, ask.name, ask.first);
      TryNumbers(Settled(t, outcome), ask.name, ask.second);
    }
  }

  // The messages the deciding attempt of a call received after sending its request.
  function Heard<V>(s: State, ask: Ask<V>): seq<Incoming<V>> {
    if Try(s, ask.name, ask.first).1.Transport? then ask.second.incoming else ask.first.incoming
  }

  // What a call returns is the body of the first reply to its own request: that request is the
  // last one issued, bears the call's method, and its id belongs to no other request of the
  // whole run. A late reply to an abandoned call is never handed to another.
  lemma RepliesAreNeverMismatched<V>(asks: seq<Ask<V>>, k: nat)
    requires k < |asks| && OutcomeOf(asks, k).Got?
    ensures var log, heard := After(asks, k + 1).log, Heard(After(asks, k), asks[k]);
            && |log| > |After(asks, k).log|
            && log[|log| - 1].name == asks[k].name
            && (exists m :: 0 <= m < |heard| && heard[m].Reply? && heard[m].id == log[|log| - 1].id
                            && heard[m].answer.Value? && heard[m].answer.value == OutcomeOf(asks, k).value)
            && (forall i :: 0 <= i < |log| - 1 ==> log[i].id < log[|log| - 1].id)
  {
    var s, ask := After(asks, k), asks[k];
    IdsAreNeverReused(asks, k);
    IdsAreNeverReused(asks, k + 1);
    var log, heard := After(asks, k + 1).log, Heard(s, ask);
    ReceivedIsReply(log[|log| - 1].id, ask.name, heard);
  }

  // ------------------------------------------------------------------ the answer, in full

  // A message that ends the wait for the reply with this id.
  predicate Decides<V>(id: nat, message: Incoming<V>) {
    message.Garbage? || message.Cancelled? || (message.Reply? && message.id == id)
  }

  ghost predicate DecidedAt<V>(id: nat, incoming: seq<Incoming<V>>, k: int) {
    0 <= k < |incoming| && Decides(id, incoming[k]) && forall j :: 0 <= j < k ==> !Decides(id, incoming[j])
  }

  // An error reply refuses; so does anything but true in answer to a login.
  predicate Refuses<V>(name: string, answer: Answer<V>) {
    answer.Fault? || (name == "auth.login_with_api_key" && !answer.isTrue)
  }

  // The first message that is garbage, a cancellation or the reply with the own id settles the
  // exchange: a value is returned whatever it is, unless the call is the login.
  lemma {:induction false} ReceiveIs<V>(id: nat, name: string, incoming: seq<Incoming<V>>)
    ensures (forall k :: 0 <= k < |incoming| ==> !Decides(id, incoming[k])) ==> Receive(id, name, incoming) == Transport
    ensures forall k :: DecidedAt(id, incoming, k) ==>
              Receive(id, name, incoming) ==
              match incoming[k]
              case Garbage => Transport
              case Cancelled => Interrupted
              case Notification => Transport
              case Reply(_, answer) => if Refuses(name, answer) then Refused else Got(answer.value)
  {
    if incoming != [] && !Decides(id, incoming[0]) {
      var rest := incoming[1..];
      ReceiveIs(id, name, rest);
      assert forall k :: 0 <= k < |rest| ==> rest[k] == incoming[k + 1];
      forall k | DecidedAt(id, incoming, k) ensures DecidedAt(id, rest, k - 1) && rest[k - 1] == incoming[k] {
        assert k > 0;
        forall j | 0 <= j < k - 1 ensures !Decides(id, rest[j]) {
          assert rest[j] == incoming[j + 1];
        }
      }
    }
  }

  // The first message to settle it is a reply with the own id, saying this.
  ghost predicate Answered<V>(id: nat, sends: bool, incoming: seq<Incoming<V>>, answer: Answer<V>) {
    sends && exists k :: DecidedAt(id, incoming, k) && incoming[k] == Reply(id, answer)
  }

  lemma AnsweredExchange<V>(s: State, name: string, sends: bool, incoming: seq<Incoming<V>>, answer: Answer<V>)
    requires Answered(s.requestId, sends, incoming, answer)
    ensures Exchange(s, name, sends, incoming) == if Refuses(name, answer) then Refused else Got(answer.value)
  {
    var k :| DecidedAt(s.requestId, incoming, k) && incoming[k] == Reply(s.requestId, answer);
    ReceiveIs(s.requestId, name, incoming);
  }

  // On a pooled socket a reply to the request is the call's answer: a value is returned, true
  // or not, and the socket stays pooled.
  lemma PooledCallIsAnswered<V>(s: State, name: string, first: Attempt<V>, second: Attempt<V>, answer: Answer<V>)
    requires s.pooled && name != "auth.login_with_api_key"
    requires Answered(s.requestId + 1, first.sends, first.incoming, answer)
    ensures Call(s, name, first, second) ==
            (State(true, s.requestId + 1, s.log + [Request(s.requestId + 1, name)]),
             if answer.Fault? then Refused else Got(answer.value))
  {
    AnsweredExchange(Issue(s, name), name, first.sends, first.incoming, answer);
  }

  // Without one, the login comes first: accepted, the request follows on the new socket;
  // answered by anything but true, the call is refused, nothing is pooled and the request is
  // never sent.
  lemma FreshCallIsAnswered<V>(s: State, name: string, first: Attempt<V>, second: Attempt<V>, login: Answer<V>, answer: Answer<V>)
    requires !s.pooled && first.connects && name != "auth.login_with_api_key"
    requires Answered(s.requestId + 1, first.loginSends, first.loginIncoming, login)
    ensures login.Fault? || !login.isTrue ==>
              Call(s, name, first, second) ==
              (State(false, s.requestId + 1, s.log + [Request(s.requestId + 1, "auth.login_with_api_key")]), Refused)
    ensures login.Value? && login.isTrue && Answered(s.requestId + 2, first.sends, first.incoming, answer) ==>
              Call(s, name, first, second) ==
              (State(true, s.requestId + 2,
                     s.log + [Request(s.requestId + 1, "auth.login_with_api_key")] + [Request(s.requestId + 2, name)]),
               if answer.Fault? then Refused else Got(answer.value))
  {
    var t := Issue(s, LOGIN);
    AnsweredExchange(t, LOGIN, first.loginSends, first.loginIncoming, login);
    if login.Value? && login.isTrue && Answered(s.requestId + 2, first.sends, first.incoming, answer) {
      AnsweredExchange(Issue(t.(pooled := true), name), name, first.sends, first.incoming, answer);
    }
  }

  // An exchange that nothing settles, or garbage does, is a transport failure; on a pooled
  // socket the call then drops it and is answered as one made with no socket.
  lemma DroppedCallStartsAfresh<V>(s: State, name: string, first: Attempt<V>, second: Attempt<V>)
    requires s.pooled && name != "auth.login_with_api_key"
    requires !first.sends || (forall k :: 0 <= k < |first.incoming| ==> !Decides(s.requestId + 1, first.incoming[k]))
             || (exists k :: DecidedAt(s.requestId + 1, first.incoming, k) && first.incoming[k].Garbage?)
    ensures var dropped := State(false, s.requestId + 1, s.log + [Request(s.requestId + 1, name)]);
            var (t, outcome) := Try(dropped, name, second);
            Call(s, name, first, second) == (Settled(t, outcome), outcome)
  {
    ReceiveIs(s.requestId + 1, name, first.incoming);
  }
}
