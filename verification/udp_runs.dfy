/** What holds in every state the UDP server can reach, however its threads interleave. */
module UdpRuns {
  import opened Bytes
  import opened UdpServers
  import opened UdpConnections
  import opened UdpPool
  import opened UdpPayloads

  ghost predicate Inv(s: State) {
    Pool(s) && ConnsOk(s) && Separate(s) && exists places :: Owned(s, places)
  }

  /** Some run of either kind of server ends in this state. */
  ghost predicate Reachable(s: State) {
    exists addressing, actions :: Run(Init(addressing), actions) == Some(s)
  }

  lemma InvInit(addressing: Addressing)
    ensures Inv(Init(addressing))
  {
    assert Owned(Init(addressing), map[]);
  }

  lemma InvStep(s: State, action: Action)
    requires Inv(s) && Next(s, action).Some?
    ensures Inv(Next(s, action).value)
  {
    hide Pool, ConnsOk, Separate, Owned, Next;
    var places :| Owned(s, places);
    ConnsOkStep(s, action);
    PoolStep(s, action);
    SeparateStep(s, action);
    var after := OwnedStep(s, places, action);
  }

  lemma {:induction false} InvRun(s: State, actions: seq<Action>)
    requires Inv(s) && Run(s, actions).Some?
    ensures Inv(Run(s, actions).value)
    decreases |actions|
  {
    hide Inv, Next;
    if actions != [] {
      InvStep(s, actions[0]);
      InvRun(Next(s, actions[0]).value, actions[1..]);
    }
  }

  lemma InvReachable(s: State)
    requires Reachable(s)
    ensures Inv(s)
  {
    hide Inv, Run;
    var addressing, actions :| Run(Init(addressing), actions) == Some(s);
    InvInit(addressing);
    InvRun(Init(addressing), actions);
  }

  // The pool

  /** The thread works for this connection, and the connection is not being erased. */
  predicate Runs(s: State, thread: nat, c: nat) {
    c in s.conns && s.conns[c].thread == thread && !Joined(StageOf(s.task, c))
  }

  /**
   At most ten connections, at most one per client if addresses are copied and at most one at all if
   they are shared; each connection not being erased has its thread in the pool, once, and each thread
   of the pool serves one connection.
   */
  lemma PoolOfConnections(s: State)
    requires Reachable(s)
    ensures |s.connections| <= 10 && NoDup(s.connections) && (forall c :: c in s.connections <==> c in s.conns)
    ensures s.addressing.Copied? ==>
              forall c, d ::
                c in s.conns && d in s.conns && SameClient(s.conns[c].address, s.conns[d].address) ==> c == d
    ensures s.addressing.Shared? ==> |s.connections| <= 1
    ensures forall c :: c in s.conns && !Joined(StageOf(s.task, c)) ==> s.conns[c].thread in s.threads
    ensures forall thread :: thread in s.threads ==> exists c :: Runs(s, thread, c)
    ensures NoDup(s.threads)
    ensures forall c, d :: c in s.conns && d in s.conns && s.conns[c].thread == s.conns[d].thread ==> c == d
  {
    InvReachable(s);
    hide Reachable, ConnsOk, Owned, SameClient, Attached;
    if s.addressing.Shared? {
      SingleIsOne(s);
    }
    ThreadsBothWays(s);
  }

  lemma SingleIsOne(s: State)
    requires Registered(s) && Single(s)
    ensures |s.connections| <= 1
  {
    hide Registered, Single;
    if |s.connections| > 1 {
      TwoConnections(s);
    }
  }

  lemma TwoConnections(s: State)
    requires Registered(s) && |s.connections| > 1
    ensures !Single(s)
  {
    assert s.connections[0] in s.conns && s.connections[1] in s.conns;
  }

  /** The lookup: with copies it finds exactly the sender's connection, shared it finds any there is. */
  lemma LookupFinds(s: State, a: Address)
    requires Reachable(s)
    ensures var found := Find(s.(slot := a), s.connections, a);
            if s.addressing.Copied? then
              (forall c :: c in s.conns ==> (found == Some(c) <==> SameClient(s.conns[c].address, a)))
            else found == if s.connections == [] then None else Some(s.connections[0])
  {
    InvReachable(s);
    hide Reachable, ConnsOk, Owned, Find, Named, Attached;
    var t := s.(slot := a);
    FindIs(t, s.connections, a);
    var found := Find(t, s.connections, a);
    if s.addressing.Copied? {
      if found.Some? {
        forall c | c in s.conns && SameClient(s.conns[c].address, a)
          ensures c == found.value
        {
          assert SameClient(s.conns[c].address, s.conns[found.value].address);
        }
      }
    } else if s.connections != [] {
      assert s.connections[0] in s.conns;
      assert SameClient(Known(t, s.connections[0]), a);
    }
  }

  lemma ThreadsBothWays(s: State)
    requires Pool(s)
    ensures forall c :: c in s.conns && !Joined(StageOf(s.task, c)) ==> s.conns[c].thread in s.threads
    ensures forall thread :: thread in s.threads ==> exists c :: Runs(s, thread, c)
    ensures NoDup(s.threads)
  {
    var order := WithThread(s);
    if order != s.connections {
      WithoutKeeps(s.connections, s.task.id);
    }
    assert forall c :: c in order <==> c in s.conns && !Joined(StageOf(s.task, c)) by {
      if s.task.Removing? && Joined(Some(s.task.stage)) {
        WithoutKeeps(s.connections, s.task.id);
      }
    }
    assert NoDup(order);
    hide Without, WithThread, StageOf;
    forall c | c in order
      ensures s.conns[c].thread in s.threads
    {
      var i :| 0 <= i < |order| && order[i] == c;
      assert s.threads[i] == s.conns[c].thread;
    }
    forall thread | thread in s.threads
      ensures exists c :: Runs(s, thread, c)
    {
      var i :| 0 <= i < |s.threads| && s.threads[i] == thread;
      assert order[i] in order;
      assert Runs(s, thread, order[i]);
    }
  }

  /** A removal always finds the thread it has to stop. */
  lemma RemovalFindsThread(s: State, c: nat, next: Option<(Address, nat)>)
    requires Reachable(s) && s.task == Removing(c, Flag, next)
    ensures ProceedStep(s).Some? && ProceedStep(s).value.task == Removing(c, Kick, next)
    ensures !ProceedStep(s).value.conns[c].processing
  {
    InvReachable(s);
    hide Reachable, ConnsOk, Owned, Separate;
    ThreadFound(s, c);
  }

  /** The listener never queues a datagram for a connection whose worker has stopped, unless the worker
      stops between the lookup and the push. */
  lemma LookupFindsServed(s: State, a: Address, received: int, c: nat)
    requires Reachable(s) && s.task.Idle? && received > 0 && AcceptStep(s, a, received).task == Push(c, received, a)
    ensures c in s.conns && (s.addressing.Copied? ==> SameClient(s.conns[c].address, a))
    ensures s.conns[c].processing && !s.conns[c].worker.Done?
  {
    InvReachable(s);
    FindIs(s.(slot := a), s.connections, a);
    hide Reachable, Owned, Separate, Pool, Find;
    assert ConnOk(s.conns[c], StageOf(s.task, c));
  }

  // Payloads

  /** Every payload created is in one queue, or held by one handler, or freed once, or lost: exactly one of
      these, and nothing is queued or freed twice. */
  lemma PayloadsConserved(s: State, p: nat)
    requires Reachable(s)
    ensures p < s.payloads <==> exists place :: At(s, p, place)
    ensures forall one, other :: At(s, p, one) && At(s, p, other) ==> one == other
    ensures s.freed[p] <= 1
    ensures forall c :: c in s.conns ==> Distinct(s.conns[c].queue)
  {
    InvReachable(s);
    hide Reachable, Pool, ConnsOk, Separate, Owned, At;
    var places :| Owned(s, places);
    forall one, other
      ensures p < s.payloads ==> At(s, p, places[p])
      ensures At(s, p, one) ==> p < s.payloads
      ensures At(s, p, one) && At(s, p, other) ==> one == other
    {
      OnePlace(s, places, p, one, other);
    }
    OnePlace(s, places, p, Freed, Freed);
  }

  lemma OthersLoseNothing(s: State, action: Action, c: nat)
    requires Next(s, action).Some? && !action.Work? && s.ids !in s.conns
    ensures Next(s, action).value.lost == s.lost
    ensures c in Next(s, action).value.conns ==>
              Next(s, action).value.conns[c].failed == (c in s.conns && s.conns[c].failed)
  {
    hide Find, Without, WorkerStep;
    match action
    case Accept(_, _) =>
    case Remove(_) =>
    case Tick(_) =>
    case Proceed =>
      if s.task.New? {
      } else if s.task.Push? {
      } else {
        var t := RemoveStep(s, s.task.id, s.task.stage, s.task.next).value;
        assert t.lost == s.lost;
      }
  }

  lemma WorkerLoses(k: Conn, sendOk: bool)
    requires FindsPayload(k) && WorkerStep(k, sendOk).Some?
    ensures WorkerStep(k, sendOk).value.1.Loses? <==> k.worker.Receive? && k.failed
    ensures WorkerStep(k, sendOk).value.1.Loses? ==> WorkerStep(k, sendOk).value.1.lost == k.queue[0].id
    ensures WorkerStep(k, sendOk).value.0.failed <==> k.failed || (k.worker.Send? && !sendOk)
  {
  }

  /** A step loses a payload exactly when a handler takes one after a send of its connection failed. */
  lemma LosesExactly(s: State, action: Action)
    requires Reachable(s) && Next(s, action).Some?
    ensures Next(s, action).value.lost != s.lost <==>
              action.Work? && s.conns[action.served].worker.Receive? && s.conns[action.served].failed
  {
    InvReachable(s);
    assert s.ids !in s.conns;
    hide Reachable, Pool, Separate;
    if action.Work? {
      var c := action.served;
      assert ConnOk(s.conns[c], StageOf(s.task, c));
      WorkerLoses(s.conns[c], action.sendOk);
      if s.conns[c].worker.Receive? {
        FrontNotLost(s, c);
      }
      hide WorkerStep, Owned, ConnsOk, StageOf, InOrder, Stops, Staged;
    } else {
      OthersLoseNothing(s, action, 0);
    }
  }

  lemma FrontNotLost(s: State, c: nat)
    requires Inv(s) && c in s.conns && s.conns[c].queue != []
    ensures s.conns[c].queue[0].id !in s.lost
  {
    hide Pool, ConnsOk, Separate;
    var places :| Owned(s, places);
    var x := s.conns[c].queue[0].id;
    assert Holds(s.conns[c].queue, x);
    OnePlace(s, places, x, Queued(c), Lost);
  }

  /** The error of a failed send is never forgotten, and nothing else sets it. */
  lemma FailsExactly(s: State, action: Action, c: nat)
    requires Reachable(s) && Next(s, action).Some? && c in Next(s, action).value.conns
    ensures Next(s, action).value.conns[c].failed <==>
              c in s.conns && (s.conns[c].failed || (action == Work(c, false) && s.conns[c].worker.Send?))
  {
    InvReachable(s);
    assert s.ids !in s.conns;
    hide Reachable, Pool, Separate, Owned;
    if action.Work? {
      var d := action.served;
      assert ConnOk(s.conns[d], StageOf(s.task, d));
      WorkerLoses(s.conns[d], action.sendOk);
      hide WorkerStep, ConnsOk, StageOf, InOrder, Stops, Staged;
    } else {
      OthersLoseNothing(s, action, c);
    }
  }

  /** While every send succeeds nothing is lost. */
  lemma {:induction false} NothingLost(addressing: Addressing, actions: seq<Action>, s: State)
    requires Run(Init(addressing), actions) == Some(s)
    requires forall i :: 0 <= i < |actions| ==> actions[i].Work? ==> actions[i].sendOk
    ensures s.lost == {} && forall c :: c in s.conns ==> !s.conns[c].failed
    decreases |actions|
  {
    if actions != [] {
      var before, last := actions[..|actions| - 1], actions[|actions| - 1];
      assert actions == before + [last];
      RunSnoc(Init(addressing), before, last);
      var r := Run(Init(addressing), before).value;
      NothingLost(addressing, before, r);
      assert Reachable(r);
      hide Run, Reachable, Next;
      LosesExactly(r, last);
      forall c | c in s.conns
        ensures !s.conns[c].failed
      {
        FailsExactly(r, last, c);
      }
    }
  }

  lemma {:induction false} RunSnoc(s: State, actions: seq<Action>, last: Action)
    ensures Run(s, actions + [last]) ==
      match Run(s, actions) case None => None case Some(t) => Next(t, last)
    decreases |actions|
  {
    hide Next;
    if actions == [] {
      assert [last][1..] == [];
    } else {
      assert (actions + [last])[1..] == actions[1..] + [last];
      if Next(s, actions[0]).Some? {
        RunSnoc(Next(s, actions[0]).value, actions[1..], last);
      }
    }
  }

  // One connection

  /** The handler gets the real payloads in the order of arrival, each once; what it has not had yet waits
      in the queue, unless the connection is being taken down. */
  lemma HandledInOrder(s: State, c: nat)
    requires Reachable(s) && c in s.conns
    ensures s.conns[c].handled <= s.conns[c].arrived && AllReal(s.conns[c].handled)
    ensures !Joined(StageOf(s.task, c)) ==> s.conns[c].arrived == s.conns[c].handled + s.conns[c].queue
  {
    hide Reachable, AllReal;
    ReachableConn(s, c);
    OrderMeans(s.conns[c], StageOf(s.task, c));
  }

  lemma ReachableConn(s: State, c: nat)
    requires Reachable(s) && c in s.conns
    ensures ConnOk(s.conns[c], StageOf(s.task, c))
  {
    InvReachable(s);
    hide Reachable, Owned, Separate, Pool, ConnOk;
  }

  lemma OrderMeans(k: Conn, stage: Option<Stage>)
    requires InOrder(k, stage)
    ensures k.handled <= k.arrived && AllReal(k.handled)
    ensures !Joined(stage) ==> k.arrived == k.handled + k.queue
  {
  }

  /** A worker past the wait always finds a payload: the front it looked at is still there when it is taken. */
  lemma FrontStays(s: State, c: nat, sendOk: bool)
    requires Reachable(s) && c in s.conns && s.conns[c].worker.Receive?
    ensures s.conns[c].queue != [] && s.conns[c].queue[0].size > 0
    ensures WorkStep(s, c, sendOk).value.conns[c].worker == Send(s.conns[c].queue[0]) || s.conns[c].failed
  {
    ReachableConn(s, c);
    hide Reachable, InOrder;
  }

  /** Once its flag is cleared a worker calls the handler at most once more. */
  lemma AtMostOneMoreCall(s: State, c: nat)
    requires Reachable(s) && c in s.conns
    ensures s.conns[c].callsAfterStop <= 1
    ensures s.conns[c].callsAfterStop == 1 ==>
              !s.conns[c].processing && !s.conns[c].worker.Refresh? && !s.conns[c].worker.Receive?
  {
    ReachableConn(s, c);
    hide Reachable, InOrder;
  }

  // Where the server falls short

  lemma Reaches(s: State, action: Action)
    requires Reachable(s) && Next(s, action).Some?
    ensures Reachable(Next(s, action).value)
  {
    hide Run, Next;
    var addressing, actions :| Run(Init(addressing), actions) == Some(s);
    RunSnoc(Init(addressing), actions, action);
  }

  lemma InitReachable(addressing: Addressing)
    ensures Reachable(Init(addressing))
  {
    assert Run(Init(addressing), []) == Some(Init(addressing));
  }

  /** One failed send is enough to lose the next payload. */
  lemma LossReachable(addressing: Addressing) returns (s: State)
    ensures Reachable(s) && s.addressing == addressing
    ensures s.lost == {1} && s.freed[1] == 0 && s.task.Idle?
  {
    var a := V4(1, 5683);
    s := TwoQueued(addressing, a, a);
    s := HandlesFront(s, Payload(0, 5, Some(a)));
    hide Reachable;
    Reaches(s, Work(0, false));
    s := Next(s, Work(0, false)).value;
    s := HandlesFront(s, Payload(1, 5, Some(a)));
  }

  /** The server has got two datagrams for one connection and its worker has not started. */
  lemma TwoQueued(addressing: Addressing, a: Address, b: Address) returns (s: State)
    requires addressing.Shared? || SameClient(a, b)
    ensures Reachable(s) && s.addressing == addressing
    ensures s.task.Idle? && s.lost == {} && s.freed == multiset{} && 0 in s.conns && s.slot == b
    ensures s.conns[0].queue == [Payload(0, 5, Some(a)), Payload(1, 5, Some(b))] && s.conns[0].worker.Loop?
    ensures s.conns[0].processing && !s.conns[0].expired && !s.conns[0].failed && s.conns[0].address == a
  {
    InitReachable(addressing);
    hide Reachable;
    s := Init(addressing);
    Reaches(s, Accept(a, 5));
    s := AcceptStep(s, a, 5);
    assert s == Init(addressing).(slot := a, task := New(a, 5));
    Reaches(s, Proceed);
    s := NewStep(s, a, 5);
    Reaches(s, Proceed);
    s := PushStep(s, 0, 5, Some(a), Idle);
    assert s.connections == [0] && s.conns[0].address == a;
    Reaches(s, Accept(b, 5));
    s := AcceptStep(s, b, 5);
    assert s.task == Push(0, 5, b);
    Reaches(s, Proceed);
    s := PushStep(s, 0, 5, Some(b), Idle);
  }

  /** The worker's way from the top of its loop until the handler has taken the front. */
  lemma HandlesFront(s: State, p: Payload) returns (t: State)
    requires Reachable(s) && s.task.Idle? && 0 in s.conns && p.size > 0
    requires s.conns[0].worker.Loop? && s.conns[0].processing && !s.conns[0].expired
    requires s.conns[0].queue != [] && s.conns[0].queue[0] == p
    ensures Reachable(t) && t.addressing == s.addressing && t.slot == s.slot
    ensures t.task.Idle? && 0 in t.conns && t.freed == s.freed && t.conns[0].address == s.conns[0].address
    ensures t.lost == if s.conns[0].failed then s.lost + {p.id} else s.lost
    ensures t.conns[0].queue == s.conns[0].queue[1..] && t.conns[0].failed == s.conns[0].failed
    ensures t.conns[0].processing && !t.conns[0].expired
    ensures t.conns[0].worker == if s.conns[0].failed then Loop else Send(p)
  {
    hide Reachable;
    var action := Work(0, true);
    t := s;
    for i := 0 to 5
      invariant Reachable(t) && t.addressing == s.addressing && t.slot == s.slot
      invariant t.task.Idle? && 0 in t.conns && t.freed == s.freed && t.lost == s.lost
      invariant t.conns[0].queue == s.conns[0].queue && t.conns[0].failed == s.conns[0].failed
      invariant t.conns[0].address == s.conns[0].address
      invariant t.conns[0].processing && !t.conns[0].expired
      invariant t.conns[0].worker ==
                if i == 0 then Loop else if i == 1 then Wait else if i == 2 then Front
                else if i == 3 then Test(Some(p)) else if i == 4 then Refresh else Receive
    {
      Reaches(t, action);
      t := Next(t, action).value;
    }
    Reaches(t, action);
    t := Next(t, action).value;
  }
}
