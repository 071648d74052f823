/** How the removal of a connection ends, however the threads interleave. */
module UdpRemovals {
  import opened Bytes
  import opened UdpServers
  import opened UdpConnections
  import opened UdpPool
  import opened UdpPayloads
  import opened UdpRuns

  // Joining

  /** Steps a stopped worker may still take. */
  function StepsLeft(w: Worker): nat {
    match w
    case Done => 0
    case Loop => 1
    case Send(_) => 2
    case Test(_) => 2
    case Receive => 3
    case Front => 3
    case Refresh => 4
    case Wait => 4
  }

  function CountWork(actions: seq<Action>, c: nat): nat
    decreases |actions|
  {
    if actions == [] then 0
    else (if actions[0].Work? && actions[0].served == c then 1 else 0) + CountWork(actions[1..], c)
  }

  predicate Joining(s: State, c: nat) { s.task.Removing? && s.task.id == c && s.task.stage.Join? }

  lemma StoppedStep(k: Conn, sendOk: bool)
    requires !k.processing && k.queue != [] && !k.worker.Done?
    ensures WorkerStep(k, sendOk).Some? && StepsLeft(WorkerStep(k, sendOk).value.0.worker) < StepsLeft(k.worker)
  {
  }

  /** A worker being joined is never blocked, and each of its steps brings it nearer to its end. */
  lemma StoppedWorkerMoves(s: State, c: nat, sendOk: bool)
    requires Inv(s) && Joining(s, c)
    ensures c in s.conns
    ensures if s.conns[c].worker.Done? then ProceedStep(s).Some?
            else WorkStep(s, c, sendOk).Some? && c in WorkStep(s, c, sendOk).value.conns &&
                 StepsLeft(WorkStep(s, c, sendOk).value.conns[c].worker) < StepsLeft(s.conns[c].worker)
  {
    hide Owned, Separate, Registered, Named, Attached, Without, StepsLeft;
    assert ConnOk(s.conns[c], StageOf(s.task, c));
    hide InOrder, ConnsOk, FindsPayload, Stops;
    if !s.conns[c].worker.Done? {
      StoppedStep(s.conns[c], sendOk);
    }
    hide WorkerStep;
  }

  lemma OthersKeepWorker(s: State, action: Action, c: nat)
    requires Joining(s, c) && c in s.conns && Next(s, action).Some?
    requires action != Proceed && !(action.Work? && action.served == c)
    ensures Joining(Next(s, action).value, c) && c in Next(s, action).value.conns
    ensures Next(s, action).value.conns[c].worker == s.conns[c].worker
  {
    hide WorkerStep, Find;
  }

  lemma WorkKeepsJoining(s: State, action: Action, c: nat)
    requires Joining(s, c) && c in s.conns && Next(s, action).Some? && action.Work? && action.served == c
    ensures Joining(Next(s, action).value, c) && c in Next(s, action).value.conns
    ensures Next(s, action) == WorkStep(s, c, action.sendOk)
  {
    hide WorkerStep;
  }

  lemma {:induction false} WaitsBriefly(s: State, c: nat, actions: seq<Action>)
    requires Inv(s) && Joining(s, c) && c in s.conns && Run(s, actions).Some?
    requires Proceed !in actions
    ensures Joining(Run(s, actions).value, c) && c in Run(s, actions).value.conns
    ensures CountWork(actions, c) + StepsLeft(Run(s, actions).value.conns[c].worker)
            <= StepsLeft(s.conns[c].worker) <= 4
    decreases |actions|
  {
    hide Inv, Next, WorkStep;
    if actions != [] {
      var first := actions[0];
      var t := Next(s, first).value;
      assert first in actions;
      InvStep(s, first);
      if first.Work? && first.served == c {
        StoppedWorkerMoves(s, c, first.sendOk);
        WorkKeepsJoining(s, first, c);
        if s.conns[c].worker.Done? {
          DoneIsBlocked(s, c, first.sendOk);
        }
      } else {
        OthersKeepWorker(s, first, c);
      }
      WaitsBriefly(t, c, actions[1..]);
    }
  }

  /** However the other threads interleave, the worker takes at most four steps before the join returns. */
  lemma JoinWaitsBriefly(s: State, c: nat, actions: seq<Action>)
    requires Reachable(s) && Joining(s, c) && Run(s, actions).Some?
    requires Proceed !in actions
    ensures c in s.conns && c in Run(s, actions).value.conns && Joining(Run(s, actions).value, c)
    ensures CountWork(actions, c) + StepsLeft(Run(s, actions).value.conns[c].worker)
            <= StepsLeft(s.conns[c].worker) <= 4
  {
    hide Reachable, Inv;
    InvReachable(s);
    StoppedWorkerMoves(s, c, true);
    WaitsBriefly(s, c, actions);
  }

  lemma DoneIsBlocked(s: State, c: nat, sendOk: bool)
    requires c in s.conns && s.conns[c].worker.Done?
    ensures WorkStep(s, c, sendOk).None?
  {
  }

  function WorkSteps(c: nat, n: nat): seq<Action> { seq(n, i => Work(c, true)) }

  lemma {:induction false} EndingSteps(s: State, c: nat) returns (n: nat)
    requires Inv(s) && Joining(s, c)
    ensures c in s.conns && n <= StepsLeft(s.conns[c].worker) <= 4
    ensures Run(s, WorkSteps(c, n)).Some? && Joining(Run(s, WorkSteps(c, n)).value, c)
    ensures Next(Run(s, WorkSteps(c, n)).value, Proceed).Some?
    decreases if c in s.conns then StepsLeft(s.conns[c].worker) else 0
  {
    hide Inv, WorkStep, ProceedStep;
    StoppedWorkerMoves(s, c, true);
    if s.conns[c].worker.Done? {
      n := 0;
    } else {
      var action := Work(c, true);
      InvStep(s, action);
      WorkKeepsJoining(s, action, c);
      var t := Next(s, action).value;
      var m := EndingSteps(t, c);
      n := m + 1;
      assert WorkSteps(c, n)[1..] == WorkSteps(c, m);
    }
  }

  /** The worker alone reaches its end, and the join then returns. */
  lemma JoinReturns(s: State, c: nat)
    requires Reachable(s) && Joining(s, c)
    ensures exists n ::
      n <= 4 && Run(s, WorkSteps(c, n)).Some? && Joining(Run(s, WorkSteps(c, n)).value, c) &&
      Next(Run(s, WorkSteps(c, n)).value, Proceed).Some?
  {
    hide Reachable, Inv, Run, Joining, Next;
    InvReachable(s);
    var n := EndingSteps(s, c);
  }

  function Proceeds(n: nat): seq<Action> { seq(n, i => Proceed) }

  function Ids(q: seq<Payload>): seq<nat> { seq(|q|, i requires 0 <= i < |q| => q[i].id) }

  lemma {:induction false} ClearsOut(s: State, c: nat, next: Option<(Address, nat)>)
    requires Inv(s) && s.task == Removing(c, Clear, next) && c in s.conns
    ensures
      var end := Run(s, Proceeds(|s.conns[c].queue| + 2));
      && end.Some? && end.value.conns == s.conns - {c} && end.value.task == Resumed(next)
      && c !in end.value.connections && |end.value.connections| == |s.connections| - 1
      && end.value.freed == s.freed + multiset(Ids(s.conns[c].queue))
    decreases |s.conns[c].queue|
  {
    hide Inv, Next;
    var q := s.conns[c].queue;
    assert Proceeds(|q| + 2)[0] == Proceed && Proceeds(|q| + 2)[1..] == Proceeds(|q| + 1);
    if q == [] {
      StopsClearing(s, c, next);
      InvStep(s, Proceed);
      LastStep(Next(s, Proceed).value, c, next);
      assert Ids(q) == [];
    } else {
      FreesFront(s, c, next);
      InvStep(s, Proceed);
      var t := Next(s, Proceed).value;
      ClearsOut(t, c, next);
      hide Run, Proceeds;
      assert Ids(q) == [q[0].id] + Ids(q[1..]);
      assert t.conns - {c} == s.conns - {c};
    }
  }

  lemma StopsClearing(s: State, c: nat, next: Option<(Address, nat)>)
    requires s.task == Removing(c, Clear, next) && c in s.conns && s.conns[c].queue == []
    ensures Next(s, Proceed) == Some(s.(task := Removing(c, Delete, next)))
  {
  }

  /**
   After the join the removal frees what still waits, takes the connection out of the pool and lets the
   datagram that asked for it go on as a new client's.
   */
  lemma RemovalFinishes(s: State, c: nat, next: Option<(Address, nat)>)
    requires Reachable(s) && s.task == Removing(c, Clear, next)
    ensures c in s.conns
    ensures
      var end := Run(s, Proceeds(|s.conns[c].queue| + 2));
      && end.Some? && end.value.conns == s.conns - {c} && end.value.task == Resumed(next)
      && c !in end.value.connections && |end.value.connections| == |s.connections| - 1
      && end.value.freed == s.freed + multiset(Ids(s.conns[c].queue))
  {
    hide Reachable, Inv, Run;
    InvReachable(s);
    VictimKnown(s, c);
    ClearsOut(s, c, next);
  }

  lemma VictimKnown(s: State, c: nat)
    requires Inv(s) && s.task.Removing? && s.task.id == c
    ensures c in s.conns && ConnOk(s.conns[c], Some(s.task.stage))
  {
    hide Separate, Owned, ConnOk, Registered, Named, Attached;
    assert ConnOk(s.conns[c], StageOf(s.task, c));
  }

  lemma FreesFront(s: State, c: nat, next: Option<(Address, nat)>)
    requires s.task == Removing(c, Clear, next) && c in s.conns && s.conns[c].queue != []
    ensures Next(s, Proceed).Some?
    ensures var t := Next(s, Proceed).value;
            && t.task == s.task && t.connections == s.connections
            && t.conns == s.conns[c := t.conns[c]] && t.conns[c].queue == s.conns[c].queue[1..]
            && t.freed == s.freed + multiset{s.conns[c].queue[0].id}
  {
  }

  lemma LastStep(t: State, c: nat, next: Option<(Address, nat)>)
    requires Inv(t) && t.task == Removing(c, Delete, next) && c in t.conns
    ensures
      var end := Run(t, Proceeds(1));
      && end.Some? && end.value.conns == t.conns - {c} && end.value.task == Resumed(next)
      && c !in end.value.connections && |end.value.connections| == |t.connections| - 1
      && end.value.freed == t.freed
  {
    hide Inv;
    Unregisters(t, c);
    assert Proceeds(1)[1..] == [];
    assert Run(t, Proceeds(1)) == Next(t, Proceed);
  }

  lemma Unregisters(s: State, c: nat)
    requires Inv(s) && c in s.conns
    ensures c !in Without(s.connections, c) && |Without(s.connections, c)| == |s.connections| - 1
  {
    hide ConnsOk, Separate, Owned;
    WithoutKeeps(s.connections, c);
  }

  // The whole removal

  predicate Removes(s: State, c: nat) { s.task.Removing? && s.task.id == c && c in s.conns }

  /** Steps the remover may still take: the queue only shrinks but for the message that stops the worker. */
  function ProceedsLeft(s: State, c: nat): nat
    requires Removes(s, c)
  {
    |s.conns[c].queue| +
    match s.task.stage case Flag => 6 case Kick => 5 case Join => 3 case Clear => 2 case Delete => 1
  }

  /** Each step of the remover weighs more than all the steps of the worker it may wait for. */
  function Weight(s: State, c: nat): nat
    requires Removes(s, c)
  {
    5 * ProceedsLeft(s, c) + if s.task.stage.Join? then StepsLeft(s.conns[c].worker) else 0
  }

  /** A step of the remover, or one of the worker the remover waits for. */
  predicate Helps(s: State, c: nat, action: Action)
    requires Removes(s, c)
  {
    action.Proceed? || (s.task.stage.Join? && action.Work? && action.served == c)
  }

  /** The removal goes on: it is of the same connection, for the same datagram, and no heavier. */
  ghost predicate GoesOn(s: State, c: nat, t: State, less: nat)
    requires Removes(s, c)
  {
    && Removes(t, c) && t.task.next == s.task.next
    && Weight(t, c) + less <= Weight(s, c)
    && t.conns.Keys == s.conns.Keys && t.connections == s.connections
  }

  ghost predicate Ended(s: State, c: nat, t: State)
    requires Removes(s, c)
  {
    && t.conns == s.conns - {c} && t.connections == Without(s.connections, c) && c !in t.connections
    && t.task == Resumed(s.task.next)
  }

  lemma WorkerKeepsQueueShort(k: Conn, sendOk: bool)
    requires WorkerStep(k, sendOk).Some?
    ensures |WorkerStep(k, sendOk).value.0.queue| <= |k.queue|
  {
  }

  lemma OthersGoOn(s: State, c: nat, action: Action)
    requires Inv(s) && Removes(s, c) && Next(s, action).Some? && !Helps(s, c, action)
    ensures GoesOn(s, c, Next(s, action).value, 0)
  {
    hide Inv, Find;
    if action.Work? {
      WorkerKeepsQueueShort(s.conns[action.served], action.sendOk);
    }
    hide WorkerStep;
  }

  lemma WorkerGoesOn(s: State, c: nat, sendOk: bool)
    requires Inv(s) && Removes(s, c) && s.task.stage.Join? && WorkStep(s, c, sendOk).Some?
    ensures GoesOn(s, c, WorkStep(s, c, sendOk).value, 1)
  {
    hide Inv, StepsLeft;
    if s.conns[c].worker.Done? {
      DoneIsBlocked(s, c, sendOk);
    }
    StoppedWorkerMoves(s, c, sendOk);
    WorkerKeepsQueueShort(s.conns[c], sendOk);
    hide WorkerStep;
  }

  lemma KickGoesOn(s: State, c: nat)
    requires Removes(s, c) && s.task.stage.Kick?
    ensures GoesOn(s, c, ProceedStep(s).value, 1)
  {
    WorkerWeighs(s.conns[c].worker);
    hide StepsLeft;
  }

  lemma WorkerWeighs(w: Worker)
    ensures StepsLeft(w) <= 4
  {
  }

  lemma JoinGoesOn(s: State, c: nat)
    requires Removes(s, c) && s.task.stage.Join? && ProceedStep(s).Some?
    ensures GoesOn(s, c, ProceedStep(s).value, 1)
  {
    hide Without;
  }

  lemma ClearGoesOn(s: State, c: nat)
    requires Removes(s, c) && s.task.stage.Clear?
    ensures GoesOn(s, c, ProceedStep(s).value, 1)
  {
    hide StepsLeft;
  }

  lemma DeleteEnds(s: State, c: nat)
    requires Removes(s, c) && s.task.stage.Delete? && c !in Without(s.connections, c)
    ensures Ended(s, c, ProceedStep(s).value)
  {
    hide Without;
  }

  lemma RemoverGoesOn(s: State, c: nat)
    requires Inv(s) && Removes(s, c) && ProceedStep(s).Some?
    ensures if s.task.stage.Delete? then Ended(s, c, ProceedStep(s).value)
            else GoesOn(s, c, ProceedStep(s).value, 1)
  {
    hide Inv, GoesOn, Ended, ProceedStep;
    match s.task.stage
    case Flag => FlagGoesOn(s, c);
    case Kick => KickGoesOn(s, c);
    case Join => JoinGoesOn(s, c);
    case Clear => ClearGoesOn(s, c);
    case Delete =>
      Unregisters(s, c);
      DeleteEnds(s, c);
  }

  lemma FlagGoesOn(s: State, c: nat)
    requires Inv(s) && Removes(s, c) && s.task.stage.Flag? && ProceedStep(s).Some?
    ensures GoesOn(s, c, ProceedStep(s).value, 1)
  {
    hide ConnsOk, Separate, Owned, Attached, Named, Registered;
    ThreadFound(s, c);
  }

  /** One step of any thread during a removal. */
  lemma RemovalStep(s: State, c: nat, action: Action)
    requires Inv(s) && Removes(s, c) && Next(s, action).Some?
    ensures var t := Next(s, action).value;
            if action.Proceed? && s.task.stage.Delete? then Ended(s, c, t)
            else GoesOn(s, c, t, if Helps(s, c, action) then 1 else 0)
  {
    hide Inv, GoesOn, Ended, ProceedStep, WorkStep;
    if !Helps(s, c, action) {
      OthersGoOn(s, c, action);
    } else if action.Proceed? {
      RemoverGoesOn(s, c);
    } else {
      WorkerGoesOn(s, c, action.sendOk);
    }
  }

  /** A removal is never stuck: the remover, or the worker it waits for, can take a step. */
  lemma NeverStuck(s: State, c: nat, sendOk: bool)
    requires Inv(s) && Removes(s, c)
    ensures Next(s, Proceed).Some? || (s.task.stage.Join? && Next(s, Work(c, sendOk)).Some?)
  {
    hide Inv, WorkStep;
    if s.task.stage.Join? {
      StoppedWorkerMoves(s, c, sendOk);
    }
  }

  /** How many steps of a run help the removal before it ends. */
  function CountHelp(s: State, c: nat, actions: seq<Action>): nat
    decreases |actions|
  {
    if actions == [] || !Removes(s, c) then 0
    else
      (if Helps(s, c, actions[0]) then 1 else 0)
      + match Next(s, actions[0]) case None => 0 case Some(t) => CountHelp(t, c, actions[1..])
  }

  /** A number that was given away does not come back. */
  lemma GoneForGood(s: State, c: nat, action: Action)
    requires Inv(s) && c < s.ids && c !in s.conns && Next(s, action).Some?
    ensures c < Next(s, action).value.ids && c !in Next(s, action).value.conns
  {
    hide Inv, Find, WorkerStep, Without, Delivered;
  }

  lemma {:induction false} GoneInEveryRun(s: State, c: nat, actions: seq<Action>)
    requires Inv(s) && c < s.ids && c !in s.conns && Run(s, actions).Some?
    ensures c !in Run(s, actions).value.conns
    decreases |actions|
  {
    hide Inv, Next;
    if actions != [] {
      GoneForGood(s, c, actions[0]);
      InvStep(s, actions[0]);
      GoneInEveryRun(Next(s, actions[0]).value, c, actions[1..]);
    }
  }

  lemma IdsGrow(s: State, c: nat, action: Action)
    requires Inv(s) && c in s.conns && Next(s, action).Some?
    ensures c < Next(s, action).value.ids
  {
    hide ConnsOk, Separate, Owned, Registered, Attached, Find, WorkerStep, Without, Delivered;
  }

  lemma {:induction false} EveryRunEnds(s: State, c: nat, actions: seq<Action>)
    requires Inv(s) && Removes(s, c) && Run(s, actions).Some?
    ensures var t := Run(s, actions).value;
            || c !in t.conns
            || (Removes(t, c) && t.task.next == s.task.next && CountHelp(s, c, actions) + Weight(t, c) <= Weight(s, c))
    decreases |actions|
  {
    hide Inv, Next, Weight, Helps;
    if actions != [] {
      var t := Next(s, actions[0]).value;
      InvStep(s, actions[0]);
      RemovalStep(s, c, actions[0]);
      if actions[0].Proceed? && s.task.stage.Delete? {
        IdsGrow(s, c, actions[0]);
        GoneInEveryRun(t, c, actions[1..]);
      } else {
        EveryRunEnds(t, c, actions[1..]);
      }
    }
  }

  /**
   In every run from the start of a removal on, whatever the other threads do in between, the
   connection is gone, or the remover and the worker it waits for have not yet taken
   5 * (|queue| + 6) steps, and one of the two can take the next.
   */
  lemma RemovalInEveryRun(s: State, c: nat, next: Option<(Address, nat)>, actions: seq<Action>)
    requires Reachable(s) && s.task == Removing(c, Flag, next) && Run(s, actions).Some?
    ensures c in s.conns
    ensures var t := Run(s, actions).value;
            || c !in t.conns
            || (Removes(t, c) && t.task.next == next
                && CountHelp(s, c, actions) < 5 * (|s.conns[c].queue| + 6)
                && (Next(t, Proceed).Some? || (t.task.stage.Join? && Next(t, Work(c, true)).Some?)))
  {
    hide Reachable, Inv, Next, Helps;
    InvReachable(s);
    VictimKnown(s, c);
    hide ConnOk;
    EveryRunEnds(s, c, actions);
    InvRun(s, actions);
    var t := Run(s, actions).value;
    if c in t.conns {
      NeverStuck(t, c, true);
    }
  }

  lemma {:induction false} Completes(s: State, c: nat) returns (actions: seq<Action>)
    requires Inv(s) && Removes(s, c)
    ensures |actions| <= Weight(s, c) && Run(s, actions).Some? && Ended(s, c, Run(s, actions).value)
    ensures Run(s, actions).value.slot == s.slot && Run(s, actions).value.ids == s.ids
    ensures forall action :: action in actions ==> action == Proceed || action == Work(c, true)
    decreases Weight(s, c)
  {
    hide Inv, Next, Weight, Without;
    NeverStuck(s, c, true);
    var action := if Next(s, Proceed).Some? then Proceed else Work(c, true);
    var t := Next(s, action).value;
    InvStep(s, action);
    RemovalStep(s, c, action);
    if action.Proceed? && s.task.stage.Delete? {
      actions := [action];
      WeightPositive(s, c);
      DeleteKeepsNames(s, c);
      assert Run(t, []) == Some(t);
      assert [action][1..] == [];
    } else {
      var rest := Completes(t, c);
      actions := [action] + rest;
      assert actions[1..] == rest;
      OthersStay(s, c, action);
      assert t.conns - {c} == s.conns - {c};
    }
  }

  lemma DeleteKeepsNames(s: State, c: nat)
    requires Removes(s, c) && s.task.stage.Delete? && Next(s, Proceed).Some?
    ensures Next(s, Proceed).value.slot == s.slot && Next(s, Proceed).value.ids == s.ids
  {
    hide Without;
  }

  lemma WeightPositive(s: State, c: nat)
    requires Removes(s, c)
    ensures Weight(s, c) >= 1
  {
  }

  /** The remover and the worker touch no other connection. */
  lemma OthersStay(s: State, c: nat, action: Action)
    requires Inv(s) && Removes(s, c) && Next(s, action).Some? && Helps(s, c, action)
    requires !(action.Proceed? && s.task.stage.Delete?)
    ensures forall d :: d != c && d in s.conns ==>
              d in Next(s, action).value.conns && Next(s, action).value.conns[d] == s.conns[d]
    ensures forall d :: d in Next(s, action).value.conns ==> d in s.conns
    ensures Next(s, action).value.slot == s.slot && Next(s, action).value.ids == s.ids
  {
    hide Inv, WorkerStep, Without, Delivered;
  }

  /**
   The remover and the worker alone take a removal from its start to its end: the connection and nothing
   else leaves the pool, its payloads with it, and the datagram that asked for it goes on as a new client's.
   */
  lemma RemovalCompletes(s: State, c: nat, next: Option<(Address, nat)>) returns (actions: seq<Action>)
    requires Reachable(s) && s.task == Removing(c, Flag, next)
    ensures c in s.conns && |actions| <= 5 * (|s.conns[c].queue| + 6) && Run(s, actions).Some?
    ensures forall action :: action in actions ==> action == Proceed || action == Work(c, true)
    ensures var end := Run(s, actions).value;
            && Reachable(end)
            && end.conns == s.conns - {c} && end.connections == Without(s.connections, c) && c !in end.connections
            && end.task == Resumed(next) && end.slot == s.slot && end.ids == s.ids
  {
    hide Reachable, Inv, Run, Without;
    InvReachable(s);
    VictimKnown(s, c);
    hide ConnOk;
    actions := Completes(s, c);
    RunsReach(s, actions);
  }

  lemma {:induction false} RunsReach(s: State, actions: seq<Action>)
    requires Reachable(s) && Run(s, actions).Some?
    ensures Reachable(Run(s, actions).value)
    decreases |actions|
  {
    hide Reachable, Next;
    if actions != [] {
      Reaches(s, actions[0]);
      RunsReach(Next(s, actions[0]).value, actions[1..]);
    }
  }
}
