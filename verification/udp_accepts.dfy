/** What the UDP server does for its clients, as runs of it: datagrams are taken in and handed to the handler. */
module UdpAccepts {
  import opened Bytes
  import opened UdpServers
  import opened UdpConnections
  import opened UdpPool
  import opened UdpPayloads
  import opened UdpRuns
  import opened UdpRemovals

  /** The same address family and the same host; the port does not matter. */
  predicate SameHost(a: Address, b: Address) { a.ip == b.ip && (a.V4? <==> b.V4?) }

  /** A connection counts as the sender's: with copied addresses one to its host, with shared ones any. */
  predicate IsClientOf(s: State, c: nat, a: Address) {
    c in s.conns && (s.addressing.Shared? || SameHost(s.conns[c].address, a))
  }

  // Accepting

  lemma FindsClient(s: State, c: nat, a: Address)
    requires Reachable(s) && IsClientOf(s, c, a)
    ensures Find(s.(slot := a), s.connections, a) == Some(c)
  {
    hide Reachable, Find;
    LookupFinds(s, a);
    if s.addressing.Shared? {
      PoolOfConnections(s);
      assert c in s.connections;
    }
  }

  lemma FindsNone(s: State, a: Address)
    requires Reachable(s) && forall c :: c in s.conns ==> !IsClientOf(s, c, a)
    ensures Find(s.(slot := a), s.connections, a) == None
  {
    hide Reachable, Find;
    FindIs(s.(slot := a), s.connections, a);
  }

  lemma AcceptsNew(s: State, a: Address, received: nat)
    requires Reachable(s) && s.task.Idle? && received > 0
    requires forall c :: c in s.conns ==> !IsClientOf(s, c, a)
    ensures Next(s, Accept(a, received)) == Some(s.(slot := a, task := New(a, received)))
  {
    hide Reachable, Find, IsClientOf;
    FindsNone(s, a);
  }

  /** The pool with one more connection, which has got the datagram and whose worker runs. */
  function WithClient(s: State, a: Address, received: nat): State {
    var first := Payload(s.payloads, received, Some(a));
    s.(conns := s.conns[s.ids := Conn(a, s.threadIds, [first], true, false, Loop, false, [first], [], 0)],
       connections := s.connections + [s.ids], threads := s.threads + [s.threadIds],
       ids := s.ids + 1, threadIds := s.threadIds + 1, payloads := s.payloads + 1, task := Idle)
  }

  lemma RunOne(s: State, a: Action)
    ensures Run(s, [a]) == Next(s, a)
  {
    hide Next;
    assert [a][1..] == [];
  }

  lemma RunFirst(s: State, a: Action, rest: seq<Action>)
    ensures Run(s, [a] + rest) == match Next(s, a) case None => None case Some(t) => Run(t, rest)
  {
    hide Next;
    assert ([a] + rest)[1..] == rest;
  }

  lemma RunTwo(s: State, a: Action, b: Action)
    ensures Run(s, [a, b]) == match Next(s, a) case None => None case Some(t) => Next(t, b)
  {
    hide Next, Run;
    assert [a, b] == [a] + [b];
    RunFirst(s, a, [b]);
    if Next(s, a).Some? {
      RunOne(Next(s, a).value, b);
    }
  }

  /** What becomes of a new client's datagram. */
  lemma OpensConnection(s: State, a: Address, received: nat)
    requires s.task == New(a, received) && s.ids !in s.conns
    ensures |s.connections| < 10 ==> Run(s, [Proceed, Proceed]) == Some(WithClient(s, a, received))
    ensures |s.connections| >= 10 ==> Next(s, Proceed) == Some(s.(task := Idle)) && Run(s, [Proceed, Proceed]) == None
  {
    RunTwo(s, Proceed, Proceed);
    hide Run;
    if |s.connections| < 10 {
      var t, first := NewStep(s, a, received), Payload(s.payloads, received, Some(a));
      assert [] + [first] == [first];
      var k := Conn(a, s.threadIds, [first], true, false, Loop, false, [first], [], 0);
      assert t.conns[s.ids := k] == s.conns[s.ids := k];
    }
  }

  /**
   A datagram of a new client opens a connection exactly if there are fewer than ten: one for its
   address, with the datagram in its queue, a running worker and a thread of its own. At ten it is dropped.
   */
  lemma NewClientAccepted(s: State, a: Address, received: nat)
    requires Reachable(s) && s.task.Idle? && received > 0
    requires forall c :: c in s.conns ==> !IsClientOf(s, c, a)
    ensures s.ids !in s.conns && s.threadIds !in s.threads
    ensures Run(s, [Accept(a, received), Proceed, Proceed]) ==
              if |s.connections| < 10 then Some(WithClient(s.(slot := a), a, received)) else None
    ensures |s.connections| >= 10 ==> Run(s, [Accept(a, received), Proceed]) == Some(s.(slot := a))
  {
    hide Reachable, Next, IsClientOf, Run;
    AcceptsNew(s, a, received);
    FreshNames(s);
    var accept, t := Accept(a, received), s.(slot := a, task := New(a, received));
    OpensConnection(t, a, received);
    RunTwo(s, accept, Proceed);
    RunFirst(s, accept, [Proceed, Proceed]);
    assert [accept, Proceed, Proceed] == [accept] + [Proceed, Proceed];
    assert WithClient(t, a, received) == WithClient(s.(slot := a), a, received);
    assert t.(task := Idle) == s.(slot := a);
  }

  lemma FreshNames(s: State)
    requires Reachable(s)
    ensures s.ids !in s.conns && s.threadIds !in s.threads
  {
    PoolOfConnections(s);
    InvReachable(s);
    hide Reachable, ConnsOk, Separate, Owned, Attached, Registered;
    forall thread | thread in s.threads ensures thread < s.threadIds {
      var c :| Runs(s, thread, c);
    }
  }

  /** The connection with one more datagram at the end of its queue. */
  function WithDatagram(s: State, c: nat, p: Payload): State
    requires c in s.conns
  {
    var k := s.conns[c];
    s.(conns := s.conns[c := k.(queue := k.queue + [p], arrived := k.arrived + [p])], payloads := s.payloads + 1)
  }

  /** A datagram of a client whose connection has not expired ends up last in its queue, and nothing else changes. */
  lemma KnownClientQueued(s: State, c: nat, a: Address, received: nat)
    requires Reachable(s) && s.task.Idle? && received > 0 && IsClientOf(s, c, a) && !s.conns[c].expired
    ensures Run(s, [Accept(a, received), Proceed]) ==
              Some(WithDatagram(s.(slot := a), c, Payload(s.payloads, received, Some(a))))
  {
    hide Reachable, Find;
    FindsClient(s, c, a);
    RunTwo(s, Accept(a, received), Proceed);
    hide Run;
    assert Next(s, Accept(a, received)) == Some(s.(slot := a, task := Push(c, received, a)));
  }

  /** A reception that failed or was empty sets the listener's variable and nothing else. */
  lemma EmptyIgnored(s: State, a: Address, received: int)
    requires s.task.Idle? && received <= 0
    ensures Run(s, [Accept(a, received)]) == Some(s.(slot := a))
  {
    RunOne(s, Accept(a, received));
  }

  /** When the lifetime of a connection ends only its mark changes. */
  lemma TickExpires(s: State, c: nat)
    requires c in s.conns
    ensures Run(s, [Tick(c)]) == Some(s.(conns := s.conns[c := s.conns[c].(expired := true)]))
  {
    RunOne(s, Tick(c));
  }

  lemma {:induction false} RunAppends(s: State, first: seq<Action>, rest: seq<Action>)
    ensures Run(s, first + rest) == match Run(s, first) case None => None case Some(t) => Run(t, rest)
    decreases |first|
  {
    hide Next;
    if first == [] {
      assert first + rest == rest;
    } else {
      assert (first + rest)[1..] == first[1..] + rest;
      if Next(s, first[0]).Some? {
        RunAppends(Next(s, first[0]).value, first[1..], rest);
      }
    }
  }

  /**
   A client whose connection has expired is served again: from its datagram on the listener and the worker
   alone take the old connection out of the pool and open a new one, which has got the datagram.
   */
  lemma ExpiredClientServed(s: State, c: nat, a: Address, received: nat) returns (actions: seq<Action>, t: State)
    requires Reachable(s) && s.task.Idle? && received > 0 && IsClientOf(s, c, a) && s.conns[c].expired
    ensures forall action :: action in actions ==> action == Proceed || action == Work(c, true)
    ensures Run(s, [Accept(a, received)] + actions) == Some(t)
    ensures s.ids !in s.conns && t.conns.Keys == s.conns.Keys - {c} + {s.ids} && t.task.Idle? && t.slot == a
    ensures forall d :: d in s.conns && d != c ==> t.conns[d] == s.conns[d]
    ensures |t.connections| == |s.connections| && s.ids in t.connections
    ensures var k := t.conns[s.ids];
            && k.address == a && k.processing && !k.expired && k.worker.Loop? && !k.failed && k.handled == []
            && t.payloads > 0 && k.queue == k.arrived == [Payload(t.payloads - 1, received, Some(a))]
  {
    hide Reachable, Run, Next, Without;
    FreshNames(s);
    var accept, next := Accept(a, received), Some((a, received));
    var removing := s.(slot := a, task := Removing(c, Flag, next));
    AcceptsExpired(s, c, a, received);
    Reaches(s, accept);
    var rest := RemovalCompletes(removing, c, next);
    var end := Run(removing, rest).value;
    assert end.task == New(a, received);
    RemovalShortens(s, end, c);
    OpensConnection(end, a, received);
    actions, t := rest + [Proceed, Proceed], WithClient(end, a, received);
    RunFirst(s, accept, actions);
    RunAppends(removing, rest, [Proceed, Proceed]);
    assert t.conns.Keys == end.conns.Keys + {s.ids};
    assert end.conns.Keys == s.conns.Keys - {c};
    assert t.connections[|t.connections| - 1] == s.ids;
  }

  lemma AcceptsExpired(s: State, c: nat, a: Address, received: nat)
    requires Reachable(s) && s.task.Idle? && received > 0 && IsClientOf(s, c, a) && s.conns[c].expired
    ensures Next(s, Accept(a, received)) == Some(s.(slot := a, task := Removing(c, Flag, Some((a, received)))))
  {
    hide Reachable, Find;
    FindsClient(s, c, a);
  }

  lemma RemovalShortens(s: State, end: State, c: nat)
    requires Reachable(s) && c in s.conns && end.connections == Without(s.connections, c)
    ensures |end.connections| == |s.connections| - 1 < 10
  {
    hide Reachable, Inv;
    InvReachable(s);
    Unregisters(s, c);
    PoolOfConnections(s);
  }

  /** The remover takes any connection out of an idle pool, with the worker's help, and nothing else. */
  lemma RemoverRemoves(s: State, c: nat) returns (actions: seq<Action>, t: State)
    requires Reachable(s) && s.task.Idle? && c in s.conns
    ensures forall action :: action in actions ==> action == Proceed || action == Work(c, true)
    ensures Run(s, [Remove(c)] + actions) == Some(t)
    ensures t.conns == s.conns - {c} && t.task.Idle? && t.slot == s.slot && t.ids == s.ids
    ensures |t.connections| == |s.connections| - 1 && c !in t.connections
  {
    var removing := s.(task := Removing(c, Flag, None));
    assert Next(s, Remove(c)) == Some(removing);
    hide Reachable, Run, Next, Without;
    Reaches(s, Remove(c));
    actions := RemovalCompletes(removing, c, None);
    t := Run(removing, actions).value;
    RemovalShortens(s, t, c);
    RunFirst(s, Remove(c), actions);
  }

  // The worker

  function Works(c: nat, sendOk: bool, n: nat): (r: seq<Action>)
    ensures |r| == n
  {
    seq(n, i => Work(c, sendOk))
  }

  /** A step of the worker that neither frees nor loses anything, in front of others. */
  lemma QuietWork(s: State, c: nat, k: Conn, after: Conn, sendOk: bool, n: nat)
    requires c in s.conns && n > 0 && WorkerStep(k, sendOk) == Some((after, Nothing))
    ensures Run(Put(s, c, k), Works(c, sendOk, n)) == Run(Put(s, c, after), Works(c, sendOk, n - 1))
  {
    hide WorkerStep;
    assert Works(c, sendOk, n)[1..] == Works(c, sendOk, n - 1);
    assert Put(Put(s, c, k), c, after) == Put(s, c, after);
  }

  lemma LastWork(s: State, c: nat, k: Conn, sendOk: bool)
    requires c in s.conns
    ensures Run(Put(s, c, k), Works(c, sendOk, 1)) ==
              match WorkerStep(k, sendOk)
              case None => None
              case Some((after, effect)) => Some(Effected(Put(s, c, after), effect))
  {
    hide WorkerStep;
    var t := Put(s, c, k);
    RunOne(t, Work(c, sendOk));
    assert Works(c, sendOk, 1) == [Work(c, sendOk)];
    if WorkerStep(k, sendOk).Some? {
      assert Put(t, c, WorkerStep(k, sendOk).value.0) == Put(s, c, WorkerStep(k, sendOk).value.0);
    }
  }

  /** From the top of its loop a worker that is not stopped comes to a waiting payload in three steps. */
  lemma LooksAtFront(s: State, c: nat, sendOk: bool, n: nat)
    requires c in s.conns && n >= 3
    requires var k := s.conns[c]; k.worker.Loop? && k.processing && k.queue != []
    ensures var k := s.conns[c];
            Run(s, Works(c, sendOk, n)) ==
              Run(Put(s, c, k.(worker := Test(Some(k.queue[0])))), Works(c, sendOk, n - 3))
  {
    hide Run, Works, Put;
    var k := s.conns[c];
    PutSame(s, c);
    QuietWork(s, c, k, k.(worker := Wait), sendOk, n);
    QuietWork(s, c, k.(worker := Wait), k.(worker := Front), sendOk, n - 1);
    QuietWork(s, c, k.(worker := Front), k.(worker := Test(Some(k.queue[0]))), sendOk, n - 2);
  }

  lemma PutSame(s: State, c: nat)
    requires c in s.conns
    ensures Put(s, c, s.conns[c]) == s
  {
    assert s.conns[c := s.conns[c]] == s.conns;
  }

  /**
   In seven steps the worker of a live connection hands the first of the waiting payloads to the handler, which
   echoes and frees it; nothing else changes but the error of the send.
   */
  lemma FrontGetsHandled(s: State, c: nat, sendOk: bool)
    requires c in s.conns
    requires var k := s.conns[c];
             k.worker.Loop? && k.processing && k.queue != [] && k.queue[0].size > 0 && !k.expired && !k.failed
    ensures var k := s.conns[c];
            var after := k.(queue := k.queue[1..], handled := k.handled + [k.queue[0]], failed := !sendOk);
            Run(s, Works(c, sendOk, 7)) ==
              Some(s.(conns := s.conns[c := after], freed := s.freed + multiset{k.queue[0].id}))
  {
    hide Run, Works;
    var k := s.conns[c];
    var p := k.queue[0];
    LooksAtFront(s, c, sendOk, 7);
    QuietWork(s, c, k.(worker := Test(Some(p))), k.(worker := Refresh), sendOk, 4);
    QuietWork(s, c, k.(worker := Refresh), k.(worker := Receive), sendOk, 3);
    var taken := k.(queue := k.queue[1..], handled := k.handled + [p], worker := Send(p));
    QuietWork(s, c, k.(worker := Receive), taken, sendOk, 2);
    LastWork(s, c, taken, sendOk);
  }

  /** In five steps the worker of an expired connection stops, and what waits stays in the queue. */
  lemma ExpiredStops(s: State, c: nat, sendOk: bool)
    requires c in s.conns
    requires var k := s.conns[c]; k.worker.Loop? && k.processing && k.queue != [] && k.expired
    ensures Run(s, Works(c, sendOk, 5)) ==
              Some(s.(conns := s.conns[c := s.conns[c].(processing := false, worker := Done)]))
  {
    hide Run, Works;
    var k := s.conns[c];
    LooksAtFront(s, c, sendOk, 5);
    QuietWork(s, c, k.(worker := Test(Some(k.queue[0]))), k.(processing := false, worker := Loop), sendOk, 2);
    LastWork(s, c, k.(processing := false, worker := Loop), sendOk);
  }

  /** With nothing to handle a worker waits, whatever its connection's lifetime. */
  lemma EmptyQueueWaits(s: State, c: nat, sendOk: bool)
    requires c in s.conns
    requires var k := s.conns[c]; k.worker.Loop? && k.processing && k.queue == []
    ensures Run(s, Works(c, sendOk, 1)) == Some(s.(conns := s.conns[c := s.conns[c].(worker := Wait)]))
    ensures Run(s, Works(c, sendOk, 2)) == None
  {
    hide Run, Works;
    var k := s.conns[c];
    PutSame(s, c);
    LastWork(s, c, k, sendOk);
    QuietWork(s, c, k, k.(worker := Wait), sendOk, 2);
    LastWork(s, c, k.(worker := Wait), sendOk);
  }

  /** A lifetime that ends while the worker has a payload in hand is renewed before the handler is called. */
  lemma LateTickRenewed(s: State, c: nat, sendOk: bool)
    requires c in s.conns && s.conns[c].worker.Refresh?
    ensures Run(s, [Tick(c), Work(c, sendOk)]) ==
              Some(s.(conns := s.conns[c := s.conns[c].(expired := false, worker := Receive)]))
  {
    RunTwo(s, Tick(c), Work(c, sendOk));
    hide Run;
    var k := s.conns[c];
    var t := Put(s, c, k.(expired := true));
    assert Put(t, c, k.(expired := false, worker := Receive)) == Put(s, c, k.(expired := false, worker := Receive));
  }
}
