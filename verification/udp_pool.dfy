/** The pool of the UDP server over every run: its size, its threads, and how its connections divide the clients. */
module UdpPool {
  import opened Bytes
  import opened UdpServers
  import opened UdpConnections

  predicate NoDup(s: seq<nat>) { forall i, j :: 0 <= i < j < |s| ==> s[i] != s[j] }

  /** The connections that still have a thread in the pool. */
  function WithThread(s: State): seq<nat> {
    if s.task.Removing? && Joined(Some(s.task.stage)) then Without(s.connections, s.task.id) else s.connections
  }

  /** Position by position, the threads are those of the connections. */
  predicate Attached(conns: map<nat, Conn>, order: seq<nat>, threads: seq<nat>) {
    && |order| == |threads|
    && forall i :: 0 <= i < |order| ==> order[i] in conns && conns[order[i]].thread == threads[i]
  }

  ghost predicate Registered(s: State) {
    && |s.connections| <= CLIENT_MAX_CONNECTIONS
    && NoDup(s.connections)
    && (forall c :: c in s.connections <==> c in s.conns)
  }

  ghost predicate Named(s: State) {
    && (forall c :: c in s.conns ==> c < s.ids && s.conns[c].thread < s.threadIds)
    && (forall c, d :: c in s.conns && d in s.conns && c != d ==> s.conns[c].thread != s.conns[d].thread)
  }

  predicate TaskOk(s: State) {
    match s.task
    case Idle => true
    case New(_, size) => size > 0
    case Push(c, size, _) => c in s.conns && size > 0
    case Removing(c, _, next) => c in s.conns && (next.Some? ==> next.value.1 > 0)
  }

  ghost predicate Pool(s: State) {
    && Registered(s) && Named(s) && TaskOk(s)
    && Attached(s.conns, WithThread(s), s.threads)
  }

  // Erasing

  lemma {:induction false} WithoutAt(s: seq<nat>, i: nat)
    requires NoDup(s) && i < |s|
    ensures Without(s, s[i]) == s[..i] + s[i + 1..]
  {
    if i > 0 {
      var x := s[i];
      WithoutAt(s[1..], i - 1);
      assert s[0] != x;
      assert [s[0]] + s[1..][..i - 1] == s[..i];
      assert s[1..][i..] == s[i + 1..];
    }
  }

  lemma ErasedAt(s: seq<nat>, i: nat)
    requires NoDup(s) && i < |s|
    ensures NoDup(s[..i] + s[i + 1..])
    ensures forall y :: y in s[..i] + s[i + 1..] <==> y in s && y != s[i]
  {
    var w := s[..i] + s[i + 1..];
    assert forall j :: 0 <= j < |w| ==> w[j] == s[if j < i then j else j + 1];
    forall y | y in s && y != s[i]
      ensures y in w
    {
      var j :| 0 <= j < |s| && s[j] == y;
      assert w[if j < i then j else j - 1] == y;
    }
  }

  lemma WithoutKeeps(s: seq<nat>, x: nat)
    requires NoDup(s) && x in s
    ensures NoDup(Without(s, x)) && |Without(s, x)| == |s| - 1
    ensures forall y :: y in Without(s, x) <==> y in s && y != x
  {
    hide NoDup, Without;
    var i :| 0 <= i < |s| && s[i] == x;
    WithoutAt(s, i);
    ErasedAt(s, i);
  }

  /** The thread of a connection of the pool stands where the connection stands, and nowhere else. */
  lemma ThreadAt(s: State, i: nat)
    requires Registered(s) && Named(s) && Attached(s.conns, s.connections, s.threads)
    requires i < |s.connections|
    ensures s.connections[i] in s.conns && s.conns[s.connections[i]].thread == s.threads[i]
    ensures forall j :: 0 <= j < |s.threads| && s.threads[j] == s.threads[i] ==> j == i
  {
  }

  /** So the search of remove_connection never fails. */
  lemma ThreadFound(s: State, c: nat)
    requires Pool(s) && c in s.conns && WithThread(s) == s.connections
    ensures s.conns[c].thread in s.threads
  {
    var i :| 0 <= i < |s.connections| && s.connections[i] == c;
    ThreadAt(s, i);
  }

  lemma ThreadsDiffer(s: State)
    requires Registered(s) && Named(s) && Attached(s.conns, s.connections, s.threads)
    ensures NoDup(s.threads)
  {
    forall j, k | 0 <= j < k < |s.threads|
      ensures s.threads[j] != s.threads[k]
    {
      ThreadAt(s, k);
    }
  }

  lemma BothErased(conns: map<nat, Conn>, order: seq<nat>, threads: seq<nat>, i: nat)
    requires Attached(conns, order, threads) && i < |order|
    ensures Attached(conns, order[..i] + order[i + 1..], threads[..i] + threads[i + 1..])
  {
  }

  lemma DetachKeeps(s: State, c: nat)
    requires Registered(s) && Named(s) && Attached(s.conns, s.connections, s.threads) && c in s.conns
    ensures Attached(s.conns, Without(s.connections, c), Without(s.threads, s.conns[c].thread))
  {
    var i :| 0 <= i < |s.connections| && s.connections[i] == c;
    ThreadsDiffer(s);
    ThreadAt(s, i);
    hide Named, Attached, NoDup;
    WithoutAt(s.connections, i);
    WithoutAt(s.threads, i);
    BothErased(s.conns, s.connections, s.threads, i);
  }

  // The connections

  lemma ConnStep(s: State, action: Action, c: nat)
    requires Pool(s) && ConnsOk(s) && Next(s, action).Some? && c in Next(s, action).value.conns
    ensures ConnOk(Next(s, action).value.conns[c], StageOf(Next(s, action).value.task, c))
  {
    hide ConnOk, Attached, Find, Without, NoDup, Delivered;
    match action
    case Accept(a, received) =>
      StageMoves(s.conns[c], c, s.task);
    case Remove(d) =>
      StageMoves(s.conns[c], c, s.task);
    case Tick(d) =>
      StageMoves(s.conns[c], c, s.task);
    case Work(d, sendOk) =>
      hide StageOf;
      if c == d {
        hide WorkerStep;
        WorkerKeepsConn(s.conns[c], sendOk, StageOf(s.task, c));
      } else {
        hide WorkerStep;
      }
    case Proceed =>
      hide WorkerStep;
      ProceedConn(s, c);
  }

  lemma FreshConnOk(a: Address, thread: nat)
    ensures ConnOk(Conn(a, thread, [], true, false, Loop, false, [], [], 0), None)
  {
  }

  lemma ProceedConn(s: State, c: nat)
    requires Pool(s) && ConnsOk(s) && ProceedStep(s).Some? && c in ProceedStep(s).value.conns
    ensures ConnOk(ProceedStep(s).value.conns[c], StageOf(ProceedStep(s).value.task, c))
  {
    hide ConnOk, Attached, WorkerStep, Find, Without, NoDup, Delivered;
    match s.task
    case New(a, size) =>
      FreshConnOk(a, s.threadIds);
    case Push(d, size, a) =>
      if c == d {
        DeliveryKeepsConn(s.conns[c], Payload(s.payloads, size, Some(a)), None);
      }
    case Removing(d, stage, next) =>
      if c == d {
        RemovalConn(s, c, stage, next);
      }
  }

  lemma RemovalConn(s: State, c: nat, stage: Stage, next: Option<(Address, nat)>)
    requires Pool(s) && ConnsOk(s) && s.task == Removing(c, stage, next) && ProceedStep(s).Some?
    requires c in ProceedStep(s).value.conns
    ensures ConnOk(ProceedStep(s).value.conns[c], StageOf(ProceedStep(s).value.task, c))
  {
    hide ConnOk, Attached, WorkerStep, Find, Without, NoDup, Delivered, Registered, Named;
    var k := s.conns[c];
    StageMoves(k, c, s.task);
    match stage
    case Flag => ThreadFound(s, c);
    case Kick => DeliveryKeepsConn(k, Payload(s.payloads, 0, None), Some(Kick));
    case Clear =>
      if k.queue != [] {
        ClearKeepsConn(k);
      }
    case _ =>
  }

  lemma ConnsOkStep(s: State, action: Action)
    requires Pool(s) && ConnsOk(s) && Next(s, action).Some?
    ensures ConnsOk(Next(s, action).value)
  {
    var t := Next(s, action).value;
    forall c | c in t.conns
      ensures ConnOk(t.conns[c], StageOf(t.task, c))
    {
      ConnStep(s, action, c);
    }
  }

  // The pool

  /** The step registers, removes and renames nothing. */
  ghost predicate SamePool(s: State, t: State) {
    && t.connections == s.connections && t.threads == s.threads && WithThread(t) == WithThread(s)
    && t.ids == s.ids && t.threadIds == s.threadIds
    && (forall c :: c in t.conns <==> c in s.conns)
    && (forall c :: c in s.conns ==>
          t.conns[c].thread == s.conns[c].thread && t.conns[c].address == s.conns[c].address)
  }

  lemma SamePoolKeeps(s: State, t: State)
    requires Pool(s) && SamePool(s, t) && TaskOk(t)
    ensures Pool(t)
  {
    hide TaskOk, WithThread, NoDup;
    assert Attached(t.conns, WithThread(t), t.threads) by {
      var order := WithThread(s);
      assert forall i :: 0 <= i < |order| ==> order[i] in s.conns;
    }
  }

  lemma WorkerKeepsName(k: Conn, sendOk: bool)
    requires WorkerStep(k, sendOk).Some?
    ensures WorkerStep(k, sendOk).value.0.thread == k.thread && WorkerStep(k, sendOk).value.0.address == k.address
  {
  }

  lemma {:induction false} FindIs(s: State, order: seq<nat>, a: Address)
    ensures
      match Find(s, order, a)
      case Some(c) => c in order && c in s.conns && SameClient(Known(s, c), a)
      case None => forall c :: c in order && c in s.conns ==> !SameClient(Known(s, c), a)
    decreases |order|
  {
    hide SameClient, Known;
    if order != [] {
      FindIs(s, order[1..], a);
      if Find(s, order, a).None? {
        forall c | c in order && c in s.conns
          ensures !SameClient(Known(s, c), a)
        {
          assert c == order[0] || c in order[1..];
        }
      }
    }
  }

  lemma AcceptKeepsPool(s: State, a: Address, received: int)
    requires Pool(s) && s.task.Idle?
    ensures Pool(AcceptStep(s, a, received))
  {
    hide Attached, Find, Without, NoDup, Named;
    FindIs(s.(slot := a), s.connections, a);
    SamePoolKeeps(s, AcceptStep(s, a, received));
  }

  lemma PutKeepsPool(s: State, c: nat, k: Conn, t: State)
    requires Pool(s) && c in s.conns && k.thread == s.conns[c].thread && k.address == s.conns[c].address
    requires t.conns == s.conns[c := k] && t.connections == s.connections && t.threads == s.threads
    requires t.ids == s.ids && t.threadIds == s.threadIds
    requires TaskOk(t) && WithThread(t) == WithThread(s)
    ensures Pool(t)
  {
    hide Attached, Without, NoDup, Named, TaskOk, WithThread;
    SamePoolKeeps(s, t);
  }

  lemma PoolStep(s: State, action: Action)
    requires Pool(s) && ConnsOk(s) && Next(s, action).Some?
    ensures Pool(Next(s, action).value)
  {
    hide ConnOk, ConnsOk, Attached, Find, Without, NoDup, Delivered, WorkerStep, Registered, Named;
    var t := Next(s, action).value;
    match action
    case Accept(a, received) =>
      AcceptKeepsPool(s, a, received);
    case Remove(d) =>
      SamePoolKeeps(s, t);
    case Tick(d) =>
      PutKeepsPool(s, d, s.conns[d].(expired := true), t);
    case Work(d, sendOk) =>
      WorkerKeepsName(s.conns[d], sendOk);
      PutKeepsPool(s, d, WorkerStep(s.conns[d], sendOk).value.0, t);
    case Proceed =>
      ProceedKeepsPool(s);
  }

  lemma ProceedKeepsPool(s: State)
    requires Pool(s) && ConnsOk(s) && ProceedStep(s).Some?
    ensures Pool(ProceedStep(s).value)
  {
    hide ConnOk, ConnsOk, Attached, Find, Without, NoDup, Delivered, WorkerStep, Named, RemoveStep;
    var t := ProceedStep(s).value;
    match s.task
    case New(a, size) =>
      if |s.connections| >= CLIENT_MAX_CONNECTIONS {
        SamePoolKeeps(s, t);
      } else {
        NewKeepsPool(s, a, size);
      }
    case Push(c, size, a) =>
      DeliveryKeepsName(s.conns[c], Payload(s.payloads, size, Some(a)));
      PutKeepsPool(s, c, Delivered(s.conns[c], Payload(s.payloads, size, Some(a))), t);
    case Removing(c, stage, next) =>
      RemovalKeepsPool(s, c, stage, next);
  }

  lemma DeliveryKeepsName(k: Conn, p: Payload)
    ensures Delivered(k, p).thread == k.thread && Delivered(k, p).address == k.address
  {
  }

  lemma NewKeepsPool(s: State, a: Address, size: nat)
    requires Pool(s) && s.task == New(a, size) && |s.connections| < CLIENT_MAX_CONNECTIONS
    ensures Pool(NewStep(s, a, size))
  {
    hide Find, Without, Delivered, WorkerStep;
    var t := NewStep(s, a, size);
    assert s.ids !in s.conns;
    assert t.connections == s.connections + [s.ids];
    assert forall i :: 0 <= i < |s.connections| ==> s.connections[i] in s.conns;
  }

  lemma RemovalKeepsPool(s: State, c: nat, stage: Stage, next: Option<(Address, nat)>)
    requires Pool(s) && ConnsOk(s) && s.task == Removing(c, stage, next) && ProceedStep(s).Some?
    ensures Pool(ProceedStep(s).value)
  {
    hide ConnOk, Attached, Find, Without, NoDup, Delivered, WorkerStep;
    var t := ProceedStep(s).value;
    match stage
    case Flag =>
      SamePoolKeeps(s, t);
    case Kick =>
      DeliveryKeepsName(s.conns[c], Payload(s.payloads, 0, None));
      SamePoolKeeps(s, t);
    case Join =>
      DetachKeeps(s, c);
    case Clear =>
      SamePoolKeeps(s, t);
    case Delete =>
      DeleteKeepsPool(s, c, next);
  }

  lemma DeleteKeepsPool(s: State, c: nat, next: Option<(Address, nat)>)
    requires Pool(s) && s.task == Removing(c, Delete, next)
    ensures Pool(ProceedStep(s).value)
  {
    hide Find, Without, NoDup, Delivered, WorkerStep;
    var t := ProceedStep(s).value;
    WithoutKeeps(s.connections, c);
    assert forall d :: d in t.conns <==> d in s.conns && d != c;
    assert forall d :: d in t.conns ==> t.conns[d] == s.conns[d];
    assert Registered(t) && Named(t) && TaskOk(t);
    hide Registered, Named, TaskOk;
    StaysAttached(s.conns, t.conns, t.connections, t.threads);
  }

  lemma StaysAttached(before: map<nat, Conn>, after: map<nat, Conn>, order: seq<nat>, threads: seq<nat>)
    requires Attached(before, order, threads)
    requires forall d :: d in order ==> d in after && d in before && after[d] == before[d]
    ensures Attached(after, order, threads)
  {
    assert forall i :: 0 <= i < |order| ==> order[i] in order;
  }

  // One connection per client

  /** No two connections serve one client, and a client about to be registered is served by none. */
  ghost predicate Clients(s: State) {
    && (forall c, d :: c in s.conns && d in s.conns && c != d ==> !SameClient(s.conns[c].address, s.conns[d].address))
    && (s.task.New? ==> forall c :: c in s.conns ==> !SameClient(s.conns[c].address, s.task.address))
    && (s.task.Removing? && s.task.next.Some? ==>
          forall c :: c in s.conns && c != s.task.id ==> !SameClient(s.conns[c].address, s.task.next.value.0))
  }

  /** There is at most one connection, and none besides the one that makes room for a new one. */
  ghost predicate Single(s: State) {
    && (forall c, d :: c in s.conns && d in s.conns ==> c == d)
    && (s.task.New? ==> s.conns == map[])
    && (s.task.Removing? && s.task.next.Some? ==> forall c :: c in s.conns ==> c == s.task.id)
  }

  /** What the addressing gives: one connection per client, or one connection in all. */
  ghost predicate Separate(s: State) { if s.addressing.Copied? then Clients(s) else Single(s) }

  lemma SamePoolKeepsClients(s: State, t: State)
    requires Clients(s) && SamePool(s, t) && (t.task == s.task || t.task.Idle? || t.task.Push?)
    ensures Clients(t)
  {
  }

  lemma SamePoolKeepsSingle(s: State, t: State)
    requires Single(s) && SamePool(s, t) && (t.task == s.task || t.task.Idle? || t.task.Push?)
    ensures Single(t)
  {
    assert s.conns == map[] ==> t.conns == map[];
  }

  lemma SamePoolKeepsSeparate(s: State, t: State)
    requires Separate(s) && t.addressing == s.addressing
    requires SamePool(s, t) && (t.task == s.task || t.task.Idle? || t.task.Push?)
    ensures Separate(t)
  {
    hide Clients, Single, SamePool;
    if s.addressing.Copied? {
      SamePoolKeepsClients(s, t);
    } else {
      SamePoolKeepsSingle(s, t);
    }
  }

  lemma SeparateStep(s: State, action: Action)
    requires Pool(s) && Separate(s) && Next(s, action).Some?
    ensures Separate(Next(s, action).value)
  {
    hide Pool, Separate, Find, Delivered, WorkerStep, ProceedStep;
    var t := Next(s, action).value;
    match action
    case Accept(a, received) =>
      AcceptKeepsSeparate(s, a, received);
    case Remove(d) =>
      RemoveKeepsSeparate(s, d);
    case Tick(d) =>
      SamePoolKeepsSeparate(s, t);
    case Work(d, sendOk) =>
      WorkerKeepsName(s.conns[d], sendOk);
      SamePoolKeepsSeparate(s, t);
    case Proceed =>
      ProceedKeepsSeparate(s);
  }

  lemma RemoveKeepsSeparate(s: State, d: nat)
    requires Separate(s) && s.task.Idle?
    ensures Separate(s.(task := Removing(d, Flag, None)))
  {
  }

  lemma AcceptKeepsSeparate(s: State, a: Address, received: int)
    requires Pool(s) && Separate(s) && s.task.Idle?
    ensures Separate(AcceptStep(s, a, received))
  {
    hide Attached, Find, NoDup, Named;
    FindIs(s.(slot := a), s.connections, a);
    if s.addressing.Shared? && Find(s.(slot := a), s.connections, a).None? {
      assert forall c :: c in s.conns ==> !SameClient(Known(s.(slot := a), c), a);
      assert s.conns == map[];
    }
  }

  lemma ProceedKeepsSeparate(s: State)
    requires Pool(s) && Separate(s) && ProceedStep(s).Some?
    ensures Separate(ProceedStep(s).value)
  {
    hide Pool, Separate, Delivered, WorkerStep, RemoveStep;
    match s.task
    case New(a, size) =>
      NewKeepsSeparate(s, a, size);
    case Push(c, size, a) =>
      DeliveryKeepsName(s.conns[c], Payload(s.payloads, size, Some(a)));
      SamePoolKeepsSeparate(s, ProceedStep(s).value);
    case Removing(c, stage, next) =>
      RemovalKeepsSeparate(s, c, stage, next);
  }

  lemma NewKeepsSeparate(s: State, a: Address, size: nat)
    requires Separate(s) && s.task == New(a, size)
    ensures Separate(NewStep(s, a, size))
  {
  }

  lemma RemovalKeepsSeparate(s: State, c: nat, stage: Stage, next: Option<(Address, nat)>)
    requires Pool(s) && Separate(s) && s.task == Removing(c, stage, next) && RemoveStep(s, c, stage, next).Some?
    ensures Separate(RemoveStep(s, c, stage, next).value)
  {
    hide Attached, Find, Without, NoDup, Delivered, Registered, Named;
    match stage
    case Flag => ThreadFound(s, c);
    case Kick => DeliveryKeepsName(s.conns[c], Payload(s.payloads, 0, None));
    case Delete => DeletionSeparates(s, c, next);
    case _ =>
  }

  lemma DeletionSeparates(s: State, c: nat, next: Option<(Address, nat)>)
    requires Separate(s) && s.task == Removing(c, Delete, next) && c in s.conns
    ensures Separate(RemoveStep(s, c, Delete, next).value)
  {
    hide Without, SameClient;
    if s.addressing.Shared? {
      assert s.conns - {c} == map[];
    }
  }
}
