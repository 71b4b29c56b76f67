/** The rendezvous of clients with the responses to their requests, as interleaved steps:
    clients send and wait, receive threads hand over responses, each client's response
    blob has a mutex and a condition variable. The network answers every request exactly
    once, with its source id. */
module ClientProtocol {
  import opened Outcomes

  /** A request and its response: the client, and which of its requests it is. */
  datatype Message = Message(source: nat, number: nat)

  /** A client alternates Send and Wait. */
  datatype Phase =
    | Outside      // about to send
    | SendLock     // waits for the mutex
    | SendHeld     // holds the mutex, about to hand the request to the network
    | SendSent     // holds the mutex, about to clear the flag
    | SendUnlock   // holds the mutex
    | Between      // about to wait
    | WaitLock     // waits for the mutex
    | WaitHeld     // holds the mutex, about to look at the flag
    | WaitSleep    // sleeps until notified

  datatype Holder = ByClient | ByReceiver(r: nat)

  /** A client with its response blob. `sent` counts its requests; `results` are what its
      waits have returned. */
  datatype Client = Client(phase: Phase, lock: Option<Holder>, hasMsg: bool, message: Option<Message>,
                           sent: nat, results: seq<Message>)

  datatype Receiver =
    | Free
    | HandleLock(m: Message)    // has a response, waits for the mutex of its blob
    | HandleHeld(m: Message)    // holds the mutex, about to set message and flag
    | HandleNotify(m: Message)  // holds the mutex, about to notify
    | HandleUnlock(m: Message)  // holds the mutex

  datatype State = State(clients: seq<Client>, receivers: seq<Receiver>, net: set<Message>)

  datatype Step =
    | Register(hasMsg: bool)         // a new client, whose flag starts with an arbitrary value
    | ClientStep(c: nat)             // what a client does next is determined
    | Deliver(r: nat, m: Message)    // a receive thread gets the response to a request
    | ReceiverStep(r: nat)           // what it does next is determined
    | WakeUp(c: nat)                 // a spurious wake-up

  predicate Enabled(s: State, step: Step) {
    match step
    case Register(_) => true
    case ClientStep(c) =>
      && c < |s.clients|
      && var me := s.clients[c];
         !me.phase.WaitSleep? && (me.phase.SendLock? || me.phase.WaitLock? ==> me.lock.None?)
    case Deliver(r, m) => r < |s.receivers| && s.receivers[r].Free? && m in s.net
    case ReceiverStep(r) =>
      && r < |s.receivers| && !s.receivers[r].Free?
      && var m := s.receivers[r].m;
         m.source < |s.clients| && (s.receivers[r].HandleLock? ==> s.clients[m.source].lock.None?)
    case WakeUp(c) => c < |s.clients| && s.clients[c].phase.WaitSleep?
  }

  function ClientDoes(c: nat, me: Client): Client
    requires !me.phase.WaitSleep?
  {
    match me.phase
    case Outside => me.(phase := SendLock)
    case SendLock => me.(phase := SendHeld, lock := Some(ByClient))
    case SendHeld => me.(phase := SendSent, sent := me.sent + 1)
    case SendSent => me.(phase := SendUnlock, hasMsg := false)
    case SendUnlock => me.(phase := Between, lock := None)
    case Between => me.(phase := WaitLock)
    case WaitLock => me.(phase := WaitHeld, lock := Some(ByClient))
    case WaitHeld =>
      if !me.hasMsg then me.(phase := WaitSleep, lock := None)
      else me.(phase := Outside, lock := None,
               results := me.results + (if me.message.Some? then [me.message.value] else []))
  }

  function ReceiverDoes(r: nat, me: Receiver, client: Client): (Receiver, Client)
    requires !me.Free?
  {
    match me
    case HandleLock(m) => (HandleHeld(m), client.(lock := Some(ByReceiver(r))))
    case HandleHeld(m) => (HandleNotify(m), client.(message := Some(m), hasMsg := true))
    case HandleNotify(m) =>
      (HandleUnlock(m), client.(phase := if client.phase.WaitSleep? then WaitLock else client.phase))
    case HandleUnlock(m) => (Free, client.(lock := None))
  }

  function Do(s: State, step: Step): State
    requires Enabled(s, step)
  {
    match step
    case Register(hasMsg) => s.(clients := s.clients + [Client(Outside, None, hasMsg, None, 0, [])])
    case ClientStep(c) =>
      var me := s.clients[c];
      State(s.clients[c := ClientDoes(c, me)], s.receivers,
            if me.phase.SendHeld? then s.net + {Message(c, me.sent)} else s.net)
    case Deliver(r, m) => State(s.clients, s.receivers[r := HandleLock(m)], s.net - {m})
    case ReceiverStep(r) =>
      var c := s.receivers[r].m.source;
      var (receiver, client) := ReceiverDoes(r, s.receivers[r], s.clients[c]);
      State(s.clients[c := client], s.receivers[r := receiver], s.net)
    case WakeUp(c) => s.(clients := s.clients[c := s.clients[c].(phase := WaitLock)])
  }

  function Init(receivers: nat): State {
    State([], seq(receivers, _ => Free), {})
  }

  /** The state after a run, if all its steps are possible. */
  function After(receivers: nat, steps: seq<Step>): Option<State>
    decreases |steps|
  {
    if steps == [] then Some(Init(receivers))
    else
      var before, last := After(receivers, steps[..|steps| - 1]), steps[|steps| - 1];
      if before.Some? && Enabled(before.value, last) then Some(Do(before.value, last)) else None
  }

  // ----- what every step keeps

  predicate Waiting(phase: Phase) {
    phase.Between? || phase.WaitLock? || phase.WaitHeld? || phase.WaitSleep?
  }

  /** The request has been sent and its response has not been set. */
  predicate Awaiting(me: Client) {
    me.phase.SendSent? || me.phase.SendUnlock? || (Waiting(me.phase) && !me.hasMsg)
  }

  predicate ClientHolds(phase: Phase) {
    phase.SendHeld? || phase.SendSent? || phase.SendUnlock? || phase.WaitHeld?
  }

  predicate ReceiverHolds(me: Receiver) {
    me.HandleHeld? || me.HandleNotify? || me.HandleUnlock?
  }

  /** Has a response that is not set yet. */
  predicate Carries(me: Receiver) {
    me.HandleLock? || me.HandleHeld?
  }

  /** Every result answers the request of its own round. */
  ghost predicate ClientOk(c: nat, me: Client) {
    && (forall i :: 0 <= i < |me.results| ==> me.results[i] == Message(c, i))
    && me.sent == |me.results| + (if Waiting(me.phase) || me.phase.SendSent? || me.phase.SendUnlock? then 1 else 0)
    && (Waiting(me.phase) && me.hasMsg ==> me.message == Some(Message(c, |me.results|)))
    && (me.phase.SendUnlock? ==> !me.hasMsg)
    && (me.lock == Some(ByClient) <==> ClientHolds(me.phase))
  }

  /** A response under way is the one its client awaits. */
  ghost predicate Awaited(s: State, m: Message) {
    && m.source < |s.clients| && Awaiting(s.clients[m.source])
    && m.number == |s.clients[m.source].results|
  }

  ghost predicate ReceiverOk(s: State, r: nat)
    requires r < |s.receivers|
  {
    var me := s.receivers[r];
    && (!me.Free? ==> me.m.source < |s.clients|)
    && (Carries(me) ==> Awaited(s, me.m) && me.m !in s.net)
    && (ReceiverHolds(me) ==> s.clients[me.m.source].lock == Some(ByReceiver(r)))
  }

  /** The response a client awaits is in the network or with a receive thread. */
  ghost predicate UnderWay(s: State, m: Message) {
    m in s.net || exists r :: 0 <= r < |s.receivers| && Carries(s.receivers[r]) && s.receivers[r].m == m
  }

  /** A client that sleeps though its response is there is about to be notified. */
  ghost predicate AboutToWake(s: State, c: nat) {
    exists r :: 0 <= r < |s.receivers| && s.receivers[r].HandleNotify? && s.receivers[r].m.source == c
  }

  ghost predicate Locked(s: State, c: nat)
    requires c < |s.clients|
  {
    s.clients[c].lock.Some? && s.clients[c].lock.value.ByReceiver? ==>
      var r := s.clients[c].lock.value.r;
      r < |s.receivers| && ReceiverHolds(s.receivers[r]) && s.receivers[r].m.source == c
  }

  ghost predicate ClientsOk(s: State) {
    forall c :: 0 <= c < |s.clients| ==> ClientOk(c, s.clients[c]) && Locked(s, c)
  }

  /** All responses under way are awaited, each by another client. */
  ghost predicate ResponsesOk(s: State) {
    && (forall m :: m in s.net ==> Awaited(s, m))
    && (forall r :: 0 <= r < |s.receivers| ==> ReceiverOk(s, r))
    && (forall r, q :: 0 <= r < q < |s.receivers| && Carries(s.receivers[r]) && Carries(s.receivers[q]) ==>
          s.receivers[r].m.source != s.receivers[q].m.source)
  }

  /** No response is lost, and no wake-up. */
  ghost predicate NoneLost(s: State) {
    && (forall c :: 0 <= c < |s.clients| && Awaiting(s.clients[c]) ==>
          UnderWay(s, Message(c, |s.clients[c].results|)))
    && (forall c :: 0 <= c < |s.clients| && s.clients[c].phase.WaitSleep? && s.clients[c].hasMsg ==>
          AboutToWake(s, c))
  }

  ghost predicate Inv(s: State) {
    ClientsOk(s) && ResponsesOk(s) && NoneLost(s)
  }

  /** A response that is under way stays so, unless the step is about it. */
  lemma StaysUnderWay(s: State, s': State, m: Message)
    requires UnderWay(s, m) && |s.receivers| == |s'.receivers|
    requires m in s.net ==> UnderWay(s', m)
    requires forall r :: 0 <= r < |s.receivers| && Carries(s.receivers[r]) && s.receivers[r].m == m ==>
      Carries(s'.receivers[r]) && s'.receivers[r].m == m
    ensures UnderWay(s', m)
  {
    if m !in s.net {
      var r :| 0 <= r < |s.receivers| && Carries(s.receivers[r]) && s.receivers[r].m == m;
      assert Carries(s'.receivers[r]);
    }
  }

  lemma StaysAboutToWake(s: State, s': State, c: nat)
    requires AboutToWake(s, c) && |s.receivers| == |s'.receivers|
    requires forall r :: 0 <= r < |s.receivers| && s.receivers[r].HandleNotify? && s.receivers[r].m.source == c ==>
      s'.receivers[r] == s.receivers[r]
    ensures AboutToWake(s', c)
  {
    var r :| 0 <= r < |s.receivers| && s.receivers[r].HandleNotify? && s.receivers[r].m.source == c;
    assert s'.receivers[r].HandleNotify?;
  }

  lemma RegisterKept(s: State, hasMsg: bool)
    requires Inv(s)
    ensures Inv(Do(s, Register(hasMsg)))
  {
    var s' := Do(s, Register(hasMsg));
    forall q | 0 <= q < |s'.receivers| ensures ReceiverOk(s', q) {
      assert ReceiverOk(s, q);
    }
    forall c | 0 <= c < |s'.clients| && Awaiting(s'.clients[c])
      ensures UnderWay(s', Message(c, |s'.clients[c].results|))
    {
      StaysUnderWay(s, s', Message(c, |s.clients[c].results|));
    }
    forall c | 0 <= c < |s'.clients| && s'.clients[c].phase.WaitSleep? && s'.clients[c].hasMsg
      ensures AboutToWake(s', c)
    {
      StaysAboutToWake(s, s', c);
    }
  }

  lemma WakeUpKept(s: State, c: nat)
    requires Inv(s) && Enabled(s, WakeUp(c))
    ensures Inv(Do(s, WakeUp(c)))
  {
    var s' := Do(s, WakeUp(c));
    forall q | 0 <= q < |s'.receivers| ensures ReceiverOk(s', q) {
      assert ReceiverOk(s, q);
    }
    forall d | 0 <= d < |s'.clients| && Awaiting(s'.clients[d])
      ensures UnderWay(s', Message(d, |s'.clients[d].results|))
    {
      StaysUnderWay(s, s', Message(d, |s.clients[d].results|));
    }
    forall d | 0 <= d < |s'.clients| && s'.clients[d].phase.WaitSleep? && s'.clients[d].hasMsg
      ensures AboutToWake(s', d)
    {
      StaysAboutToWake(s, s', d);
    }
  }

  lemma DeliverKept(s: State, r: nat, m: Message)
    requires Inv(s) && Enabled(s, Deliver(r, m))
    ensures Inv(Do(s, Deliver(r, m)))
  {
    var s' := Do(s, Deliver(r, m));
    assert Awaited(s, m);
    forall q | 0 <= q < |s'.receivers| ensures ReceiverOk(s', q) {
      assert ReceiverOk(s, q);
    }
    forall q | 0 <= q < |s.receivers| && Carries(s.receivers[q]) ensures s.receivers[q].m.source != m.source {
      assert ReceiverOk(s, q);
    }
    forall d | 0 <= d < |s'.clients| && Awaiting(s'.clients[d])
      ensures UnderWay(s', Message(d, |s'.clients[d].results|))
    {
      var n := Message(d, |s.clients[d].results|);
      if n == m {
        assert Carries(s'.receivers[r]);
      } else {
        StaysUnderWay(s, s', n);
      }
    }
    forall d | 0 <= d < |s'.clients| && s'.clients[d].phase.WaitSleep? && s'.clients[d].hasMsg
      ensures AboutToWake(s', d)
    {
      StaysAboutToWake(s, s', d);
    }
  }

  lemma ClientStepKept(s: State, c: nat)
    requires Inv(s) && Enabled(s, ClientStep(c))
    ensures Inv(Do(s, ClientStep(c)))
  {
    var s' := Do(s, ClientStep(c));
    forall q | 0 <= q < |s'.receivers| ensures ReceiverOk(s', q) {
      assert ReceiverOk(s, q);
    }
    forall d | 0 <= d < |s'.clients| && Awaiting(s'.clients[d])
      ensures UnderWay(s', Message(d, |s'.clients[d].results|))
    {
      if d != c || !s.clients[c].phase.SendHeld? {
        StaysUnderWay(s, s', Message(d, |s.clients[d].results|));
      }
    }
    forall d | 0 <= d < |s'.clients| && s'.clients[d].phase.WaitSleep? && s'.clients[d].hasMsg
      ensures AboutToWake(s', d)
    {
      StaysAboutToWake(s, s', d);
    }
  }

  lemma ReceiverStepKept(s: State, r: nat)
    requires Inv(s) && Enabled(s, ReceiverStep(r))
    ensures Inv(Do(s, ReceiverStep(r)))
  {
    var s', c := Do(s, ReceiverStep(r)), s.receivers[r].m.source;
    assert ReceiverOk(s, r);
    forall q | 0 <= q < |s'.receivers| ensures ReceiverOk(s', q) {
      assert ReceiverOk(s, q);
    }
    forall d | 0 <= d < |s'.clients| && Awaiting(s'.clients[d])
      ensures UnderWay(s', Message(d, |s'.clients[d].results|))
    {
      StaysUnderWay(s, s', Message(d, |s.clients[d].results|));
    }
    forall d | 0 <= d < |s'.clients| && s'.clients[d].phase.WaitSleep? && s'.clients[d].hasMsg
      ensures AboutToWake(s', d)
    {
      if d == c && s.receivers[r].HandleHeld? {
        assert s'.receivers[r].HandleNotify?;
      } else {
        StaysAboutToWake(s, s', d);
      }
    }
  }

  lemma {:induction false} RunsKeep(receivers: nat, steps: seq<Step>)
    requires After(receivers, steps).Some?
    ensures Inv(After(receivers, steps).value) && |After(receivers, steps).value.receivers| == receivers
    decreases |steps|
  {
    if steps != [] {
      var init, last := steps[..|steps| - 1], steps[|steps| - 1];
      RunsKeep(receivers, init);
      var s := After(receivers, init).value;
      match last {
        case Register(hasMsg) => RegisterKept(s, hasMsg);
        case ClientStep(c) => ClientStepKept(s, c);
        case Deliver(r, m) => DeliverKept(s, r, m);
        case ReceiverStep(r) => ReceiverStepKept(s, r);
        case WakeUp(c) => WakeUpKept(s, c);
      }
    }
  }

  /** In every run a client's i-th wait returns the response to its own i-th request, so
      no response is handed out twice. */
  lemma OwnResponses(receivers: nat, steps: seq<Step>, c: nat, i: nat, d: nat, j: nat)
    requires After(receivers, steps).Some?
    requires var s := After(receivers, steps).value;
      && c < |s.clients| && i < |s.clients[c].results| && d < |s.clients| && j < |s.clients[d].results|
    ensures var s := After(receivers, steps).value;
      && s.clients[c].results[i] == Message(c, i)
      && (s.clients[c].results[i] == s.clients[d].results[j] <==> c == d && i == j)
  {
    RunsKeep(receivers, steps);
    var s := After(receivers, steps).value;
    assert ClientOk(c, s.clients[c]) && ClientOk(d, s.clients[d]);
  }

  /** A step is possible of a receive thread, or of a client that holds its mutex; no new
      request and no spurious wake-up is needed. */
  ghost predicate CanGoOn(s: State) {
    || (exists c :: 0 <= c < |s.clients| && ClientHolds(s.clients[c].phase) && Enabled(s, ClientStep(c)))
    || (exists r :: 0 <= r < |s.receivers| && Enabled(s, ReceiverStep(r)))
    || (exists r, m :: 0 <= r < |s.receivers| && m in s.net && Enabled(s, Deliver(r, m)))
  }

  /** A busy receive thread goes on, or who holds the mutex it waits for does. */
  lemma BusyGoesOn(s: State, r: nat)
    requires Inv(s) && r < |s.receivers| && !s.receivers[r].Free?
    ensures CanGoOn(s)
  {
    assert ReceiverOk(s, r);
    var c := s.receivers[r].m.source;
    assert ClientOk(c, s.clients[c]) && Locked(s, c);
    if s.receivers[r].HandleLock? && s.clients[c].lock.Some? {
      match s.clients[c].lock.value {
        case ByClient => assert ClientHolds(s.clients[c].phase) && Enabled(s, ClientStep(c));
        case ByReceiver(q) =>
          assert ReceiverOk(s, q);
          assert Enabled(s, ReceiverStep(q));
      }
    } else {
      assert Enabled(s, ReceiverStep(r));
    }
  }

  /** A client that sleeps is never stranded. */
  lemma NeverStranded(receivers: nat, steps: seq<Step>, c: nat)
    requires 0 < receivers && After(receivers, steps).Some?
    requires var s := After(receivers, steps).value; c < |s.clients| && s.clients[c].phase.WaitSleep?
    ensures CanGoOn(After(receivers, steps).value)
  {
    RunsKeep(receivers, steps);
    var s := After(receivers, steps).value;
    if s.clients[c].hasMsg {
      var r :| 0 <= r < |s.receivers| && s.receivers[r].HandleNotify? && s.receivers[r].m.source == c;
      BusyGoesOn(s, r);
    } else if !s.receivers[0].Free? {
      BusyGoesOn(s, 0);
    } else {
      var m := Message(c, |s.clients[c].results|);
      assert UnderWay(s, m);
      if m in s.net {
        assert Enabled(s, Deliver(0, m));
      } else {
        var r :| 0 <= r < |s.receivers| && Carries(s.receivers[r]) && s.receivers[r].m == m;
        BusyGoesOn(s, r);
      }
    }
  }

  // ----- registering clients

  /** The network that responses are sent by. */
  class Net {
    constructor () {}
  }

  class ResponseBlob {
    var id: nat
    var net: Net?

    constructor ()
      ensures id == 0 && net == null
    {
      id, net := 0, null;
    }
  }

  /** The blobs of all clients; a client's id is the place of its blob. */
  class ClientService {
    const net: Net
    var responses: seq<ResponseBlob>

    ghost predicate Valid()
      reads this, responses
    {
      && (forall i :: 0 <= i < |responses| ==> responses[i].id == i && responses[i].net == net)
      && forall i, j :: 0 <= i < j < |responses| ==> responses[i] != responses[j]
    }

    constructor (net: Net)
      ensures Valid() && responses == [] && this.net == net
    {
      this.net := net;
      responses := [];
    }

    /** Registers a fresh blob, finds its place, makes that its id and links it to the
        network; all others stay as they are. */
    method CreateResponseBlob() returns (blob: ResponseBlob)
      requires Valid()
      modifies this
      ensures Valid() && fresh(blob) && responses == old(responses) + [blob]
      ensures blob.id == |old(responses)| && blob.net == net
    {
      blob := new ResponseBlob();
      responses := responses + [blob];
      for i := 0 to |responses|
        invariant responses == old(responses) + [blob] && blob !in old(responses)
        invariant responses[|old(responses)|] == blob
        invariant forall k :: 0 <= k < |old(responses)| ==> responses[k].id == k && responses[k].net == net
        invariant forall k :: 0 <= k < i ==> responses[k] != blob
      {
        if responses[i] == blob {
          blob.id := i;
          blob.net := net;
          return;
        }
      }
      assert false;
    }
  }
}
