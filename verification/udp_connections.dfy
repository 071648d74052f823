/** What every run of the UDP server keeps for each connection: order, stopping and joining. */
module UdpConnections {
  import opened Bytes
  import opened UdpServers

  function StageOf(task: Task, c: nat): Option<Stage> {
    if task.Removing? && task.id == c then Some(task.stage) else None
  }

  predicate PastStop(stage: Option<Stage>) { stage.Some? && !stage.value.Flag? }

  predicate Joined(stage: Option<Stage>) { stage == Some(Clear) || stage == Some(Delete) }

  predicate Kicked(q: seq<Payload>) { q != [] && q[|q| - 1].size == 0 }

  predicate AllReal(q: seq<Payload>) { forall i :: 0 <= i < |q| ==> q[i].size > 0 }

  /** A worker past the wait finds a payload, the one it looked at, and handles only real ones. */
  predicate FindsPayload(k: Conn) {
    match k.worker
    case Front => k.queue != []
    case Test(head) => k.queue != [] && head == Some(k.queue[0])
    case Refresh => k.queue != [] && k.queue[0].size > 0
    case Receive => k.queue != [] && k.queue[0].size > 0
    case _ => true
  }

  /** What was handled and what waits are the payloads in the order of arrival. */
  predicate InOrder(k: Conn, stage: Option<Stage>) {
    && AllReal(k.handled)
    && |k.handled| + |k.queue| <= |k.arrived|
    && k.handled == k.arrived[..|k.handled|]
    && k.queue == k.arrived[|k.arrived| - |k.queue|..]
    && (!Joined(stage) ==> |k.handled| + |k.queue| == |k.arrived|)
  }

  /** A stopped worker calls the handler at most once more, and only a worker that was past the test. */
  predicate Stops(k: Conn) {
    && (k.processing ==> k.callsAfterStop == 0 && !k.worker.Done?)
    && (k.callsAfterStop + if k.worker.Refresh? || k.worker.Receive? then 1 else 0) <= 1
  }

  /** Only a removal stops a worker whose connection is still good. */
  predicate Staged(k: Conn, stage: Option<Stage>) {
    && (!PastStop(stage) ==> AllReal(k.queue) && (k.processing || (k.expired && (k.worker.Loop? || k.worker.Done?))))
    && (PastStop(stage) ==> !k.processing)
    && (stage == Some(Kick) ==> AllReal(k.queue))
    && (stage == Some(Join) ==> Kicked(k.queue))
    && (Joined(stage) ==> k.worker.Done?)
    && (stage == Some(Delete) ==> k.queue == [])
  }

  predicate ConnOk(k: Conn, stage: Option<Stage>) {
    FindsPayload(k) && InOrder(k, stage) && Stops(k) && Staged(k, stage)
  }

  ghost predicate ConnsOk(s: State) {
    forall c :: c in s.conns ==> ConnOk(s.conns[c], StageOf(s.task, c))
  }

  lemma HandlingKeepsOrder(k: Conn, after: Conn, stage: Option<Stage>)
    requires InOrder(k, stage) && !Joined(stage) && k.queue != [] && k.queue[0].size > 0
    requires after.queue == k.queue[1..] && after.handled == k.handled + [k.queue[0]] && after.arrived == k.arrived
    ensures InOrder(after, stage)
  {
    assert k.arrived[|k.handled|] == k.queue[0];
    assert after.handled == k.arrived[..|k.handled| + 1];
    assert after.queue == k.arrived[|k.arrived| - |k.queue|..][1..];
  }

  lemma HandlingKeepsConn(k: Conn, stage: Option<Stage>)
    requires ConnOk(k, stage) && k.worker.Receive?
    ensures ConnOk(Handle(k).0, stage)
  {
    var after := Handle(k).0;
    HandlingKeepsOrder(k, after, stage);
    hide InOrder;
    assert Kicked(k.queue) ==> Kicked(after.queue) by {
      assert |k.queue| > 1 ==> after.queue[|after.queue| - 1] == k.queue[|k.queue| - 1];
    }
  }

  lemma WorkerKeepsOrder(k: Conn, sendOk: bool, stage: Option<Stage>)
    requires InOrder(k, stage) && !k.worker.Receive? && WorkerStep(k, sendOk).Some?
    ensures InOrder(WorkerStep(k, sendOk).value.0, stage)
  {
    hide InOrder;
    var after := WorkerStep(k, sendOk).value.0;
    assert after.queue == k.queue && after.arrived == k.arrived && after.handled == k.handled;
    SameOrder(k, after, stage);
  }

  lemma SameOrder(k: Conn, after: Conn, stage: Option<Stage>)
    requires InOrder(k, stage)
    requires after.queue == k.queue && after.arrived == k.arrived && after.handled == k.handled
    ensures InOrder(after, stage)
  {
  }

  lemma WorkerKeepsStage(k: Conn, sendOk: bool, stage: Option<Stage>)
    requires FindsPayload(k) && Stops(k) && Staged(k, stage)
    requires !k.worker.Receive? && WorkerStep(k, sendOk).Some?
    ensures Staged(WorkerStep(k, sendOk).value.0, stage)
  {
    hide Kicked;
    var after := WorkerStep(k, sendOk).value.0;
    assert after.queue == k.queue;
    if k.worker.Test? {
      assert k.worker.head == Some(k.queue[0]);
    }
  }

  lemma WorkerKeepsConn(k: Conn, sendOk: bool, stage: Option<Stage>)
    requires ConnOk(k, stage) && WorkerStep(k, sendOk).Some?
    ensures ConnOk(WorkerStep(k, sendOk).value.0, stage)
  {
    if k.worker.Receive? {
      HandlingKeepsConn(k, stage);
    } else {
      WorkerKeepsOrder(k, sendOk, stage);
      WorkerKeepsStage(k, sendOk, stage);
      hide InOrder, Staged, Handle;
      var after := WorkerStep(k, sendOk).value.0;
      assert FindsPayload(after) && Stops(after);
    }
  }

  lemma DeliveryKeepsOrder(k: Conn, p: Payload, stage: Option<Stage>, moved: Option<Stage>)
    requires InOrder(k, stage) && !Joined(stage) && !Joined(moved)
    ensures InOrder(Delivered(k, p), moved)
  {
    var after := Delivered(k, p);
    assert k.arrived == k.handled + k.queue;
    assert after.arrived == k.handled + after.queue;
  }

  lemma DeliveryKeepsConn(k: Conn, p: Payload, stage: Option<Stage>)
    requires ConnOk(k, stage) && !Joined(stage)
    requires if p.size == 0 then stage == Some(Kick) else !PastStop(stage)
    ensures ConnOk(Delivered(k, p), if p.size == 0 then Some(Join) else stage)
  {
    var after := Delivered(k, p);
    DeliveryKeepsOrder(k, p, stage, if p.size == 0 then Some(Join) else stage);
    hide InOrder;
    assert k.queue != [] ==> after.queue[0] == k.queue[0];
  }

  lemma ClearKeepsConn(k: Conn)
    requires ConnOk(k, Some(Clear)) && k.queue != []
    ensures ConnOk(k.(queue := Queues.Popped(k.queue)), Some(Clear))
  {
  }

  lemma StageMoves(k: Conn, c: nat, task: Task)
    ensures ConnOk(k, None) ==> ConnOk(k, Some(Flag))
    ensures ConnOk(k, Some(Flag)) ==> ConnOk(k.(processing := false), Some(Kick))
    ensures ConnOk(k, Some(Join)) && k.worker.Done? ==> ConnOk(k, Some(Clear))
    ensures ConnOk(k, Some(Clear)) && k.queue == [] ==> ConnOk(k, Some(Delete))
    ensures ConnOk(k, StageOf(task, c)) ==> ConnOk(k.(expired := true), StageOf(task, c))
  {
  }
}
