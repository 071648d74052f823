/** Who owns each payload of the UDP server. */
module UdpPayloads {
  import opened Bytes
  import opened UdpServers
  import opened UdpConnections
  import opened UdpPool

  datatype Place = Queued(conn: nat) | Held(conn: nat) | Freed | Lost

  /** The payload waits in this queue. */
  ghost predicate Holds(q: seq<Payload>, p: nat) { exists i :: 0 <= i < |q| && q[i].id == p }

  predicate Distinct(q: seq<Payload>) { forall i, j :: 0 <= i < j < |q| ==> q[i].id != q[j].id }

  /** The handler of this worker has taken it out and not freed it yet. */
  predicate HeldBy(k: Conn, p: nat) { k.worker.Send? && k.worker.payload.id == p }

  /** The payload is at this place. */
  ghost predicate At(s: State, p: nat, place: Place) {
    match place
    case Queued(c) => c in s.conns && Holds(s.conns[c].queue, p)
    case Held(c) => c in s.conns && HeldBy(s.conns[c], p)
    case Freed => s.freed[p] == 1
    case Lost => p in s.lost
  }

  /** `places` names the place of every payload created, and the state agrees: nothing waits twice in
      a queue, nothing is freed twice, and what does not exist is nowhere. */
  ghost predicate Owned(s: State, places: map<nat, Place>) {
    Located(s, places) && Waiting(s, places) && InHand(s, places) && Ended(s, places)
  }

  ghost predicate Located(s: State, places: map<nat, Place>) {
    && (forall p: nat :: p in places <==> p < s.payloads)
    && (forall p :: p in places && (places[p].Queued? || places[p].Held?) ==> places[p].conn in s.conns)
  }

  ghost predicate Waiting(s: State, places: map<nat, Place>) {
    && (forall c :: c in s.conns ==> Distinct(s.conns[c].queue))
    && (forall c, p :: c in s.conns ==> (Holds(s.conns[c].queue, p) <==> p in places && places[p] == Queued(c)))
  }

  ghost predicate InHand(s: State, places: map<nat, Place>) {
    forall c, p :: c in s.conns ==> (HeldBy(s.conns[c], p) <==> p in places && places[p] == Held(c))
  }

  ghost predicate Ended(s: State, places: map<nat, Place>) {
    && (forall p :: s.freed[p] == if p in places && places[p] == Freed then 1 else 0)
    && (forall p :: p in s.lost <==> p in places && places[p] == Lost)
  }

  lemma PopHolds(q: seq<Payload>, p: nat)
    requires q != [] && Distinct(q)
    ensures Distinct(q[1..])
    ensures Holds(q[1..], p) <==> Holds(q, p) && p != q[0].id
  {
    if Holds(q, p) && p != q[0].id {
      var i :| 0 <= i < |q| && q[i].id == p;
      assert q[1..][i - 1].id == p;
    }
    if Holds(q[1..], p) {
      var i :| 0 <= i < |q[1..]| && q[1..][i].id == p;
      assert q[i + 1].id == p;
    }
  }

  lemma PushHolds(q: seq<Payload>, x: Payload, p: nat)
    ensures Holds(q + [x], p) <==> Holds(q, p) || p == x.id
    ensures Distinct(q) && !Holds(q, x.id) ==> Distinct(q + [x])
  {
    var r := q + [x];
    assert r[|q|] == x;
    if Holds(q, p) {
      var i :| 0 <= i < |q| && q[i].id == p;
      assert r[i].id == p;
    }
    if Holds(r, p) && p != x.id {
      var i :| 0 <= i < |r| && r[i].id == p;
      assert q[i].id == p;
    }
  }

  // One payload moves

  /** A payload arrives at the end of a queue. */
  lemma Arrives(s: State, places: map<nat, Place>, c: nat, x: Payload, t: State) returns (after: map<nat, Place>)
    requires Owned(s, places) && c in s.conns
    requires c in t.conns && t.conns == s.conns[c := t.conns[c]] && t.conns[c].worker == s.conns[c].worker
    requires x.id == s.payloads && t.conns[c].queue == s.conns[c].queue + [x]
    requires t.payloads == s.payloads + 1 && t.freed == s.freed && t.lost == s.lost
    ensures Owned(t, after)
  {
    var q := s.conns[c].queue;
    after := places[x.id := Queued(c)];
    assert x.id !in places;
    assert !Holds(q, x.id);
    forall p: nat
      ensures Holds(t.conns[c].queue, p) <==> Holds(q, p) || p == x.id
      ensures Distinct(t.conns[c].queue)
    {
      PushHolds(q, x, p);
    }
    hide Holds, Distinct;
  }

  /** The front of a queue goes to the handler, is lost, or is freed by the removal. */
  lemma Leaves(s: State, places: map<nat, Place>, c: nat, t: State, to: Place) returns (after: map<nat, Place>)
    requires Owned(s, places) && c in s.conns && s.conns[c].queue != []
    requires c in t.conns && t.conns == s.conns[c := t.conns[c]] && t.conns[c].queue == s.conns[c].queue[1..]
    requires t.payloads == s.payloads
    requires !s.conns[c].worker.Send?
    requires t.conns[c].worker.Send? <==> to == Held(c)
    requires to == Held(c) ==> t.conns[c].worker.payload == s.conns[c].queue[0]
    requires to == Held(c) || to == Lost || to == Freed
    requires t.freed == if to == Freed then s.freed + multiset{s.conns[c].queue[0].id} else s.freed
    requires t.lost == if to == Lost then s.lost + {s.conns[c].queue[0].id} else s.lost
    ensures Owned(t, after)
  {
    var x := s.conns[c].queue[0].id;
    after := places[x := to];
    assert Holds(s.conns[c].queue, x);
    assert x in places && places[x] == Queued(c);
    FrontLeaves(s, places, c, t, to);
    hide Holds, Distinct, Waiting;
    LeavesHand(s, places, c, t, to, x);
    LeavesEnded(s, places, c, t, to, x);
    hide InHand, Ended;
    assert Located(t, after);
  }

  lemma LeavesEnded(s: State, places: map<nat, Place>, c: nat, t: State, to: Place, x: nat)
    requires Ended(s, places) && x in places && places[x] == Queued(c)
    requires to == Held(c) || to == Lost || to == Freed
    requires t.freed == if to == Freed then s.freed + multiset{x} else s.freed
    requires t.lost == if to == Lost then s.lost + {x} else s.lost
    ensures Ended(t, places[x := to])
  {
  }

  lemma LeavesHand(s: State, places: map<nat, Place>, c: nat, t: State, to: Place, x: nat)
    requires InHand(s, places) && c in s.conns && !s.conns[c].worker.Send?
    requires x in places && places[x] == Queued(c)
    requires c in t.conns && t.conns == s.conns[c := t.conns[c]] && !to.Queued?
    requires t.conns[c].worker.Send? <==> to == Held(c)
    requires to == Held(c) ==> t.conns[c].worker.payload.id == x
    requires to.Held? ==> to == Held(c)
    ensures InHand(t, places[x := to])
  {
    var after := places[x := to];
    forall d, p | d in t.conns
      ensures HeldBy(t.conns[d], p) <==> p in after && after[p] == Held(d)
    {
      assert HeldBy(s.conns[d], p) <==> p in places && places[p] == Held(d);
    }
  }

  lemma FrontLeaves(s: State, places: map<nat, Place>, c: nat, t: State, to: Place)
    requires Waiting(s, places) && c in s.conns && s.conns[c].queue != [] && !to.Queued?
    requires c in t.conns && t.conns == s.conns[c := t.conns[c]] && t.conns[c].queue == s.conns[c].queue[1..]
    requires s.conns[c].queue[0].id in places && places[s.conns[c].queue[0].id] == Queued(c)
    ensures Waiting(t, places[s.conns[c].queue[0].id := to])
  {
    var q := s.conns[c].queue;
    forall p: nat
      ensures Holds(q[1..], p) <==> Holds(q, p) && p != q[0].id
      ensures Distinct(q[1..])
    {
      PopHolds(q, p);
    }
    hide Holds, Distinct;
  }

  /** The handler frees what it holds. */
  lemma Released(s: State, places: map<nat, Place>, c: nat, t: State) returns (after: map<nat, Place>)
    requires Owned(s, places) && c in s.conns && s.conns[c].worker.Send?
    requires c in t.conns && t.conns == s.conns[c := t.conns[c]] && t.conns[c].queue == s.conns[c].queue
    requires !t.conns[c].worker.Send? && t.payloads == s.payloads && t.lost == s.lost
    requires t.freed == s.freed + multiset{s.conns[c].worker.payload.id}
    ensures Owned(t, after)
  {
    var x := s.conns[c].worker.payload.id;
    after := places[x := Freed];
    assert HeldBy(s.conns[c], x);
    ReleasedEnded(s, places, c, t, x);
    ReleasedHand(s, places, c, t, x);
    hide Holds, Distinct, InHand, Ended;
    assert Located(t, after);
    hide Located;
    assert Waiting(t, after);
  }

  lemma ReleasedHand(s: State, places: map<nat, Place>, c: nat, t: State, x: nat)
    requires InHand(s, places) && c in s.conns && HeldBy(s.conns[c], x)
    requires c in t.conns && t.conns == s.conns[c := t.conns[c]] && !t.conns[c].worker.Send?
    ensures InHand(t, places[x := Freed])
  {
    var after := places[x := Freed];
    forall d, p | d in t.conns
      ensures HeldBy(t.conns[d], p) <==> p in after && after[p] == Held(d)
    {
      assert HeldBy(s.conns[d], p) <==> p in places && places[p] == Held(d);
      assert x in places && places[x] == Held(c);
    }
  }

  lemma ReleasedEnded(s: State, places: map<nat, Place>, c: nat, t: State, x: nat)
    requires Ended(s, places) && x in places && places[x] == Held(c)
    requires t.freed == s.freed + multiset{x} && t.lost == s.lost
    ensures Ended(t, places[x := Freed])
  {
  }

  /** The payloads of a connection are where they were. */
  ghost predicate SamePayloads(k: Conn, after: Conn) {
    after.queue == k.queue && (after.worker == k.worker || (!k.worker.Send? && !after.worker.Send?))
  }

  lemma SameHeld(k: Conn, after: Conn, p: nat)
    requires SamePayloads(k, after)
    ensures HeldBy(after, p) <==> HeldBy(k, p)
  {
  }

  /** Nothing moves. */
  lemma Rests(s: State, places: map<nat, Place>, t: State)
    requires Owned(s, places)
    requires t.payloads == s.payloads && t.freed == s.freed && t.lost == s.lost
    requires t.conns.Keys == s.conns.Keys
    requires forall c :: c in s.conns ==> SamePayloads(s.conns[c], t.conns[c])
    ensures Owned(t, places)
  {
    hide Holds, Distinct, HeldBy;
    forall c, p | c in t.conns
      ensures Holds(t.conns[c].queue, p) <==> p in places && places[p] == Queued(c)
      ensures HeldBy(t.conns[c], p) <==> p in places && places[p] == Held(c)
    {
      assert c in s.conns;
      SameHeld(s.conns[c], t.conns[c], p);
    }
  }

  lemma RestsPut(s: State, places: map<nat, Place>, c: nat, k: Conn, t: State)
    requires Owned(s, places) && c in s.conns && SamePayloads(s.conns[c], k)
    requires t.payloads == s.payloads && t.freed == s.freed && t.lost == s.lost && t.conns == s.conns[c := k]
    ensures Owned(t, places)
  {
    hide Owned;
    Rests(s, places, t);
  }

  /** A connection comes with an empty queue. */
  lemma Opens(s: State, places: map<nat, Place>, c: nat, k: Conn, t: State)
    requires Owned(s, places) && c !in s.conns && k.queue == [] && !k.worker.Send?
    requires t.payloads == s.payloads && t.freed == s.freed && t.lost == s.lost && t.conns == s.conns[c := k]
    ensures Owned(t, places)
  {
    assert forall p :: !Holds(k.queue, p) && !HeldBy(k, p);
    assert Distinct(k.queue);
    hide Holds, Distinct, HeldBy;
  }

  /** A connection goes once its queue is empty and its handler at rest. */
  lemma Closes(s: State, places: map<nat, Place>, c: nat, t: State)
    requires Owned(s, places) && c in s.conns && s.conns[c].queue == [] && !s.conns[c].worker.Send?
    requires t.payloads == s.payloads && t.freed == s.freed && t.lost == s.lost && t.conns == s.conns - {c}
    ensures Owned(t, places)
  {
    assert forall p :: !Holds(s.conns[c].queue, p) && !HeldBy(s.conns[c], p);
    hide Holds, Distinct, HeldBy;
  }

  // Every step

  lemma WorkMoves(s: State, places: map<nat, Place>, c: nat, sendOk: bool) returns (after: map<nat, Place>)
    requires ConnsOk(s) && Owned(s, places) && c in s.conns && WorkStep(s, c, sendOk).Some?
    ensures Owned(WorkStep(s, c, sendOk).value, after)
  {
    var k := s.conns[c];
    var t := WorkStep(s, c, sendOk).value;
    assert FindsPayload(k) by { assert ConnOk(k, StageOf(s.task, c)); }
    hide Owned, ConnOk, ConnsOk;
    match k.worker
    case Receive =>
      after := Leaves(s, places, c, t, if k.failed then Lost else Held(c));
    case Send(_) =>
      after := Released(s, places, c, t);
    case _ =>
      after := places;
      QuietStep(k, sendOk);
      RestsPut(s, places, c, WorkerStep(k, sendOk).value.0, t);
  }

  lemma QuietStep(k: Conn, sendOk: bool)
    requires WorkerStep(k, sendOk).Some? && !k.worker.Receive? && !k.worker.Send?
    ensures SamePayloads(k, WorkerStep(k, sendOk).value.0) && WorkerStep(k, sendOk).value.1 == Nothing
  {
  }

  lemma Cleared(s: State, places: map<nat, Place>, c: nat, t: State) returns (after: map<nat, Place>)
    requires Owned(s, places) && c in s.conns && s.conns[c].queue != [] && s.conns[c].worker.Done?
    requires t.conns == s.conns[c := s.conns[c].(queue := s.conns[c].queue[1..])]
    requires t.freed == s.freed + multiset{s.conns[c].queue[0].id} && t.lost == s.lost && t.payloads == s.payloads
    ensures Owned(t, after)
  {
    hide Owned;
    after := Leaves(s, places, c, t, Freed);
  }

  lemma RemovalRests(s: State, places: map<nat, Place>, c: nat, stage: Stage, next: Option<(Address, nat)>)
    requires Owned(s, places) && c in s.conns && RemoveStep(s, c, stage, next).Some?
    requires stage.Flag? || stage.Join? || (stage.Clear? && s.conns[c].queue == [])
    ensures Owned(RemoveStep(s, c, stage, next).value, places)
  {
    hide Owned, Without;
    var t := RemoveStep(s, c, stage, next).value;
    RestsPut(s, places, c, t.conns[c], t);
  }

  lemma RemovalMoves(s: State, places: map<nat, Place>, c: nat, stage: Stage, next: Option<(Address, nat)>)
    returns (after: map<nat, Place>)
    requires Owned(s, places) && c in s.conns && Staged(s.conns[c], Some(stage))
    requires RemoveStep(s, c, stage, next).Some?
    ensures Owned(RemoveStep(s, c, stage, next).value, after)
  {
    hide Owned, Without;
    var t := RemoveStep(s, c, stage, next).value;
    after := places;
    if stage.Kick? {
      after := Arrives(s, places, c, Payload(s.payloads, 0, None), t);
    } else if stage.Delete? {
      Closes(s, places, c, t);
    } else if stage.Clear? && s.conns[c].queue != [] {
      after := Cleared(s, places, c, t);
    } else {
      RemovalRests(s, places, c, stage, next);
    }
  }

  lemma ProceedMoves(s: State, places: map<nat, Place>) returns (after: map<nat, Place>)
    requires Pool(s) && ConnsOk(s) && Owned(s, places) && ProceedStep(s).Some?
    ensures Owned(ProceedStep(s).value, after)
  {
    var t := ProceedStep(s).value;
    after := places;
    match s.task
    case New(a, size) =>
      assert s.ids !in s.conns;
      hide Owned, ConnsOk, Pool;
      if |s.connections| >= CLIENT_MAX_CONNECTIONS {
        Rests(s, places, t);
      } else {
        Opens(s, places, s.ids, t.conns[s.ids], t);
      }
    case Push(c, size, a) =>
      hide Owned, ConnsOk, Pool;
      after := Arrives(s, places, c, Payload(s.payloads, size, Some(a)), t);
    case Removing(c, stage, next) =>
      assert ConnOk(s.conns[c], StageOf(s.task, c));
      hide Owned, ConnsOk, Pool, RemoveStep;
      after := RemovalMoves(s, places, c, stage, next);
  }

  lemma OwnedStep(s: State, places: map<nat, Place>, action: Action) returns (after: map<nat, Place>)
    requires Pool(s) && ConnsOk(s) && Owned(s, places) && Next(s, action).Some?
    ensures Owned(Next(s, action).value, after)
  {
    hide Owned, ConnOk, ConnsOk, Pool, Find, RemoveStep, WorkerStep;
    var t := Next(s, action).value;
    after := places;
    match action
    case Accept(_, _) =>
      Rests(s, places, t);
    case Remove(_) =>
      Rests(s, places, t);
    case Tick(c) =>
      RestsPut(s, places, c, t.conns[c], t);
    case Work(c, sendOk) =>
      hide WorkStep;
      after := WorkMoves(s, places, c, sendOk);
    case Proceed =>
      hide ProceedStep;
      after := ProceedMoves(s, places);
  }

  lemma AtMeans(s: State, places: map<nat, Place>, p: nat, one: Place)
    requires Owned(s, places)
    ensures At(s, p, one) <==> p in places && places[p] == one
  {
    hide Holds, Distinct, HeldBy;
    match one
    case Queued(c) =>
    case Held(c) =>
    case Freed =>
    case Lost =>
  }

  /** So each payload is at one place, and at that place once. */
  lemma OnePlace(s: State, places: map<nat, Place>, p: nat, one: Place, other: Place)
    requires Owned(s, places)
    ensures p < s.payloads ==> p in places && At(s, p, places[p])
    ensures At(s, p, one) ==> p < s.payloads && one == places[p]
    ensures At(s, p, one) && At(s, p, other) ==> one == other
    ensures s.freed[p] <= 1
    ensures forall c :: c in s.conns ==> Distinct(s.conns[c].queue)
  {
    AtMeans(s, places, p, one);
    AtMeans(s, places, p, other);
    if p < s.payloads {
      AtMeans(s, places, p, places[p]);
    }
    hide Holds, Distinct, At;
  }
}
