/** Where the echoes of the UDP server go. */
module UdpEchoes {
  import opened Bytes
  import opened UdpServers
  import opened UdpConnections
  import opened UdpPool
  import opened UdpRuns

  /** A datagram of this connection's client; of any client where addresses are shared. */
  predicate FromClient(k: Conn, p: Payload, addressing: Addressing) {
    p.size > 0 ==> p.sender.Some? && (addressing.Copied? ==> SameClient(k.address, p.sender.value))
  }

  /** What arrives is of the client, the first of it from the very address the connection has. */
  predicate OfClient(k: Conn, addressing: Addressing) {
    && (forall i :: 0 <= i < |k.arrived| ==> FromClient(k, k.arrived[i], addressing))
    && (k.arrived != [] ==> k.arrived[0].sender == Some(k.address))
    && (k.worker.Send? ==> k.worker.payload in k.handled)
  }

  /** A connection that nothing has arrived for is about to get its first datagram. */
  ghost predicate Expecting(s: State) {
    && (forall c :: c in s.conns && s.conns[c].arrived == [] ==> s.task.Push? && s.task.id == c)
    && (s.task.Push? && s.task.id in s.conns ==>
          var k := s.conns[s.task.id];
          && (k.arrived == [] ==> s.task.sender == k.address)
          && (s.addressing.Copied? ==> SameClient(k.address, s.task.sender)))
  }

  ghost predicate Addressed(s: State) {
    Expecting(s) && forall c :: c in s.conns ==> OfClient(s.conns[c], s.addressing)
  }

  // What each step keeps

  lemma WorkerKeepsArrived(k: Conn, sendOk: bool, addressing: Addressing)
    requires OfClient(k, addressing) && WorkerStep(k, sendOk).Some?
    ensures var after := WorkerStep(k, sendOk).value.0;
            OfClient(after, addressing) && after.arrived == k.arrived && after.address == k.address
  {
    var after := WorkerStep(k, sendOk).value.0;
    assert after.arrived == k.arrived && after.address == k.address;
    if k.worker.Receive? && k.queue != [] {
      assert after.handled[|k.handled|] == k.queue[0];
    }
  }

  lemma DeliveryKeepsArrived(k: Conn, p: Payload, addressing: Addressing)
    requires OfClient(k, addressing) && FromClient(k, p, addressing)
    requires k.arrived == [] ==> p.sender == Some(k.address)
    ensures OfClient(Delivered(k, p), addressing) && Delivered(k, p).arrived != []
    ensures Delivered(k, p).address == k.address
  {
  }

  /** The step leaves every connection as it was, as far as its datagrams and its address go, or takes it away. */
  ghost predicate SameArrivals(s: State, t: State) {
    && t.addressing == s.addressing
    && forall c :: c in t.conns ==>
         c in s.conns && t.conns[c].arrived == s.conns[c].arrived && t.conns[c].address == s.conns[c].address
  }

  lemma SameArrivalsKeep(s: State, t: State)
    requires Addressed(s) && SameArrivals(s, t)
    requires t.task == s.task || (!s.task.Push? && !t.task.Push?)
    requires forall c :: c in t.conns ==> OfClient(t.conns[c], t.addressing)
    ensures Addressed(t)
  {
    hide OfClient;
  }

  lemma AddressedStep(s: State, action: Action)
    requires Inv(s) && Addressed(s) && Next(s, action).Some?
    ensures Addressed(Next(s, action).value)
  {
    hide Inv, Addressed, AcceptStep, WorkStep, ProceedStep, OfClient;
    var t := Next(s, action).value;
    match action
    case Accept(a, received) =>
      AcceptKeepsAddressed(s, a, received);
    case Remove(c) =>
      RemoveKeepsAddressed(s, c);
    case Tick(c) =>
      TickKeepsAddressed(s, c);
    case Work(c, sendOk) =>
      WorkKeepsAddressed(s, c, sendOk);
    case Proceed =>
      ProceedKeepsAddressed(s);
  }

  lemma AcceptKeepsAddressed(s: State, a: Address, received: int)
    requires Inv(s) && Addressed(s) && s.task.Idle?
    ensures Addressed(AcceptStep(s, a, received))
  {
    hide Inv, OfClient, Find;
    FindIs(s.(slot := a), s.connections, a);
  }

  lemma RemoveKeepsAddressed(s: State, c: nat)
    requires Addressed(s) && s.task.Idle?
    ensures Addressed(s.(task := Removing(c, Flag, None)))
  {
    hide OfClient;
  }

  lemma TickKeepsAddressed(s: State, c: nat)
    requires Addressed(s) && c in s.conns
    ensures Addressed(Put(s, c, s.conns[c].(expired := true)))
  {
    var t := Put(s, c, s.conns[c].(expired := true));
    assert OfClient(t.conns[c], t.addressing);
    hide OfClient;
    SameArrivalsKeep(s, t);
  }

  lemma WorkKeepsAddressed(s: State, c: nat, sendOk: bool)
    requires Addressed(s) && c in s.conns && WorkStep(s, c, sendOk).Some?
    ensures Addressed(WorkStep(s, c, sendOk).value)
  {
    hide OfClient;
    WorkerKeepsArrived(s.conns[c], sendOk, s.addressing);
    hide WorkerStep;
    SameArrivalsKeep(s, WorkStep(s, c, sendOk).value);
  }

  lemma ProceedKeepsAddressed(s: State)
    requires Inv(s) && Addressed(s) && ProceedStep(s).Some?
    ensures Addressed(ProceedStep(s).value)
  {
    hide Inv, Addressed, RemoveStep, NewStep, PushStep;
    match s.task
    case New(a, size) =>
      NewKeepsAddressed(s, a, size);
    case Push(c, size, a) =>
      PushKeepsAddressed(s, c, size, a);
    case Removing(c, stage, next) =>
      RemovalKeepsAddressed(s, c, stage, next);
  }

  lemma NewKeepsAddressed(s: State, a: Address, size: nat)
    requires Inv(s) && Addressed(s) && s.task == New(a, size)
    ensures Addressed(NewStep(s, a, size))
  {
    assert s.ids !in s.conns;
    hide Inv;
    if |s.connections| < CLIENT_MAX_CONNECTIONS {
      var t := NewStep(s, a, size);
      assert OfClient(t.conns[s.ids], t.addressing);
      hide OfClient;
      assert forall c :: c in s.conns ==> s.conns[c].arrived != [];
    }
  }

  lemma PushKeepsAddressed(s: State, c: nat, size: nat, a: Address)
    requires Addressed(s) && c in s.conns && s.task == Push(c, size, a)
    ensures Addressed(PushStep(s, c, size, Some(a), Idle))
  {
    var p := Payload(s.payloads, size, Some(a));
    hide OfClient;
    DeliveryKeepsArrived(s.conns[c], p, s.addressing);
    hide Delivered;
  }

  lemma RemovalKeepsAddressed(s: State, c: nat, stage: Stage, next: Option<(Address, nat)>)
    requires Addressed(s) && c in s.conns && s.task == Removing(c, stage, next)
    requires RemoveStep(s, c, stage, next).Some?
    ensures Addressed(RemoveStep(s, c, stage, next).value)
  {
    if stage.Kick? {
      KickKeepsAddressed(s, c, next);
    } else {
      RemovalKeepsArrivals(s, c, stage, next);
      hide OfClient, RemoveStep, SameArrivals;
      SameArrivalsKeep(s, RemoveStep(s, c, stage, next).value);
    }
  }

  lemma KickKeepsAddressed(s: State, c: nat, next: Option<(Address, nat)>)
    requires Addressed(s) && c in s.conns && s.task == Removing(c, Kick, next)
    ensures Addressed(PushStep(s, c, 0, None, Removing(c, Join, next)))
  {
    hide OfClient;
    DeliveryKeepsArrived(s.conns[c], Payload(s.payloads, 0, None), s.addressing);
    hide Delivered;
  }

  lemma RemovalKeepsArrivals(s: State, c: nat, stage: Stage, next: Option<(Address, nat)>)
    requires Addressed(s) && c in s.conns && s.task == Removing(c, stage, next) && !stage.Kick?
    requires RemoveStep(s, c, stage, next).Some?
    ensures var t := RemoveStep(s, c, stage, next).value;
            && SameArrivals(s, t) && !t.task.Push?
            && forall d :: d in t.conns ==> OfClient(t.conns[d], t.addressing)
  {
    hide Without, Expecting;
  }

  lemma {:induction false} AddressedRun(s: State, actions: seq<Action>)
    requires Inv(s) && Addressed(s) && Run(s, actions).Some?
    ensures Addressed(Run(s, actions).value)
    decreases |actions|
  {
    hide Inv, Addressed, Next;
    if actions != [] {
      InvStep(s, actions[0]);
      AddressedStep(s, actions[0]);
      AddressedRun(Next(s, actions[0]).value, actions[1..]);
    }
  }

  lemma AddressedReachable(s: State)
    requires Reachable(s)
    ensures Addressed(s)
  {
    hide Inv, Run;
    var addressing, actions :| Run(Init(addressing), actions) == Some(s);
    InvInit(addressing);
    AddressedRun(Init(addressing), actions);
  }

  // Where an echo goes

  /**
   The address of the send step. Where addresses are copied it is that of the connection's first datagram:
   always the host the payload came from, and its sender exactly if the port is that of the first datagram.
   */
  lemma EchoToClient(s: State, c: nat)
    requires Reachable(s) && s.addressing.Copied? && c in s.conns && s.conns[c].worker.Send?
    ensures var k := s.conns[c];
            && k.arrived != [] && k.arrived[0].sender.Some? && k.worker.payload.sender.Some?
            && var first, sender, to := k.arrived[0].sender.value, k.worker.payload.sender.value, Known(s, c);
               && to == first && SameClient(to, sender)
               && (to == sender <==> sender.port == first.port)
  {
    hide Reachable;
    SenderKnown(s, c);
  }

  lemma SenderKnown(s: State, c: nat)
    requires Reachable(s) && c in s.conns && s.conns[c].worker.Send?
    ensures var k := s.conns[c];
            && k.arrived != [] && k.arrived[0].sender == Some(k.address)
            && k.worker.payload.size > 0 && FromClient(k, k.worker.payload, s.addressing)
  {
    hide Reachable;
    AddressedReachable(s);
    ReachableConn(s, c);
    var k := s.conns[c];
    var i :| 0 <= i < |k.handled| && k.handled[i] == k.worker.payload;
    assert k.arrived[i] == k.handled[i];
    hide FindsPayload, Stops, Staged, Expecting;
  }

  /** The sender of the latest datagram of a run. */
  function Latest(actions: seq<Action>): Option<Address> {
    if actions == [] then None
    else
      var last := actions[|actions| - 1];
      if last.Accept? then Some(last.address) else Latest(actions[..|actions| - 1])
  }

  lemma OthersKeepSlot(s: State, action: Action)
    requires Next(s, action).Some?
    ensures Next(s, action).value.slot == if action.Accept? then action.address else s.slot
    ensures Next(s, action).value.addressing == s.addressing
  {
    hide Find, WorkerStep, Without, Delivered;
  }

  lemma {:induction false} SlotIsLatest(addressing: Addressing, actions: seq<Action>, s: State)
    requires Run(Init(addressing), actions) == Some(s)
    ensures s.slot == match Latest(actions) { case None => V4(0, 0) case Some(a) => a }
    ensures s.addressing == addressing
    decreases |actions|
  {
    if actions != [] {
      var before, last := actions[..|actions| - 1], actions[|actions| - 1];
      assert actions == before + [last];
      RunSnoc(Init(addressing), before, last);
      hide Run, Next;
      var r := Run(Init(addressing), before).value;
      SlotIsLatest(addressing, before, r);
      OthersKeepSlot(r, last);
    }
  }

  /** Where addresses are shared an echo goes to its payload's sender exactly if that sent the latest datagram. */
  lemma EchoToLatest(actions: seq<Action>, s: State, c: nat)
    requires Run(Init(Shared), actions) == Some(s) && c in s.conns && s.conns[c].worker.Send?
    ensures Latest(actions) == Some(Known(s, c))
    ensures var sender := s.conns[c].worker.payload.sender;
            sender.Some? && (Known(s, c) == sender.value <==> Latest(actions) == sender)
  {
    hide Run;
    assert Reachable(s);
    SlotIsLatest(Shared, actions, s);
    SenderKnown(s, c);
    if Latest(actions).None? {
      NoneWithoutDatagram(Shared, actions, s);
    }
  }

  lemma {:induction false} NoneWithoutDatagram(addressing: Addressing, actions: seq<Action>, s: State)
    requires Run(Init(addressing), actions) == Some(s) && Latest(actions).None?
    ensures s.conns == map[] && s.task.Idle?
    decreases |actions|
  {
    if actions != [] {
      var before, last := actions[..|actions| - 1], actions[|actions| - 1];
      assert actions == before + [last];
      RunSnoc(Init(addressing), before, last);
      NoneWithoutDatagram(addressing, before, Run(Init(addressing), before).value);
    }
  }

  /** Copied: the second of two ports of one host is answered at the first. */
  lemma SecondPortAnsweredAtFirst(ip: nat, first: nat, second: nat) returns (s: State)
    requires first != second
    ensures Reachable(s) && s.addressing.Copied? && 0 in s.conns
    ensures s.conns[0].worker == Send(Payload(1, 5, Some(V4(ip, second)))) && Known(s, 0) == V4(ip, first)
  {
    hide Reachable;
    s := TwoQueued(Copied, V4(ip, first), V4(ip, second));
    s := HandlesFront(s, Payload(0, 5, Some(V4(ip, first))));
    Reaches(s, Work(0, true));
    s := Next(s, Work(0, true)).value;
    s := HandlesFront(s, Payload(1, 5, Some(V4(ip, second))));
  }

  /** Shared: one client's datagram is answered to another. */
  lemma AnsweredToAnother(a: Address, b: Address) returns (s: State)
    requires a != b
    ensures Reachable(s) && s.addressing.Shared? && 0 in s.conns
    ensures s.conns[0].worker == Send(Payload(0, 5, Some(a))) && Known(s, 0) == b
  {
    hide Reachable;
    s := TwoQueued(Shared, a, b);
    s := HandlesFront(s, Payload(0, 5, Some(a)));
  }
}
