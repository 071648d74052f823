/** The UDP server's connection pool as a state machine: whoever holds the pool (listener or remover),
    one worker per connection, and the clock, interleaved freely. */
module UdpServers {
  import opened Bytes
  import Queues = SafeQueues

  const CLIENT_MAX_CONNECTIONS: nat := 10

  datatype Address = V4(ip: nat, port: nat) | V6(ip: nat, port: nat)

  /** One client: one host of one family, whatever the port. */
  predicate SameClient(known: Address, a: Address) { known.V4? == a.V4? && known.ip == a.ip }

  /**
   What a connection knows of its client. It is meant to be the address itself (`Copied`); as written
   it is a pointer to the variable into which the listener receives every datagram's address (`Shared`).
   */
  datatype Addressing = Copied | Shared

  /**
   A buffer on the heap, named by its allocation. Size 0 is the message that stops a worker. The
   sender of the datagram is history.
   */
  datatype Payload = Payload(id: nat, size: nat, sender: Option<Address>)

  /** Where a worker is in its loop. */
  datatype Worker =
    | Loop                          // about to test the flag
    | Wait                          // waiting for the queue to fill
    | Front                         // about to read the front
    | Test(head: Option<Payload>)   // about to decide whether to stop
    | Refresh                       // about to renew the lifetime
    | Receive                       // the handler is called and takes the front
    | Send(payload: Payload)        // the handler echoes and frees what it took
    | Done

  /** One connection. `arrived`, `handled` and `callsAfterStop` are history, read by no step. */
  datatype Conn = Conn(
    address: Address, thread: nat, queue: seq<Payload>, processing: bool, expired: bool, worker: Worker,
    failed: bool, arrived: seq<Payload>, handled: seq<Payload>, callsAfterStop: nat)

  datatype Stage = Flag | Kick | Join | Clear | Delete

  /** What the holder of the pool is doing; `next` is the datagram that waits for a removal. */
  datatype Task =
    | Idle
    | New(address: Address, size: nat)
    | Push(id: nat, size: nat, sender: Address)
    | Removing(id: nat, stage: Stage, next: Option<(Address, nat)>)

  /** `slot` is the listener's variable, `addressing` never changes, `freed` and `lost` are history. */
  datatype State = State(
    addressing: Addressing, slot: Address,
    conns: map<nat, Conn>, connections: seq<nat>, threads: seq<nat>, task: Task,
    payloads: nat, ids: nat, threadIds: nat, freed: multiset<nat>, lost: set<nat>)

  datatype Action =
    | Accept(address: Address, received: int)
    | Remove(victim: nat)
    | Tick(timed: nat)
    | Work(served: nat, sendOk: bool)
    | Proceed

  datatype Effect = Nothing | Frees(freed: nat) | Loses(lost: nat)

  function Init(addressing: Addressing): State {
    State(addressing, V4(0, 0), map[], [], [], Idle, 0, 0, 0, multiset{}, {})
  }

  // Steps

  /** One step of the worker with the echo handler, or None while it is blocked or gone. The error code
      of a failed send is never cleared, so the next payload taken is dropped. */
  function WorkerStep(k: Conn, sendOk: bool): Option<(Conn, Effect)> {
    match k.worker
    case Loop => Some((k.(worker := if k.processing then Wait else Done), Nothing))
    case Wait => if k.queue == [] then None else Some((k.(worker := Front), Nothing))
    case Front => Some((k.(worker := Test(Queues.Front(k.queue))), Nothing))
    case Test(head) =>
      if !k.processing || (head.Some? && head.value.size == 0) || k.expired
      then Some((k.(processing := false, worker := Loop), Nothing))
      else Some((k.(worker := Refresh), Nothing))
    case Refresh => Some((k.(expired := false, worker := Receive), Nothing))
    case Receive => Some(Handle(k))
    case Send(p) => Some((k.(failed := k.failed || !sendOk, worker := Loop), Frees(p.id)))
    case Done => None
  }

  function Handle(k: Conn): (Conn, Effect) {
    var called := k.(callsAfterStop := k.callsAfterStop + if k.processing then 0 else 1,
                     queue := Queues.Popped(k.queue));
    match Queues.Front(k.queue)
    case None => (called.(failed := true, worker := Loop), Nothing)
    case Some(p) =>
      if k.failed then (called.(handled := k.handled + [p], worker := Loop), Loses(p.id))
      else (called.(handled := k.handled + [p], worker := Send(p)), Nothing)
  }

  /** The client's address as the connection sees it now. */
  function Known(s: State, c: nat): Address
    requires c in s.conns
  {
    if s.addressing.Shared? then s.slot else s.conns[c].address
  }

  function Find(s: State, order: seq<nat>, a: Address): Option<nat> {
    if order == [] then None
    else if order[0] in s.conns && SameClient(Known(s, order[0]), a) then Some(order[0])
    else Find(s, order[1..], a)
  }

  /** Erases the first occurrence. */
  function Without(s: seq<nat>, x: nat): seq<nat> {
    if s == [] then [] else if s[0] == x then s[1..] else [s[0]] + Without(s[1..], x)
  }

  function Resumed(next: Option<(Address, nat)>): Task {
    match next case None => Idle case Some((a, size)) => New(a, size)
  }

  function Put(s: State, c: nat, k: Conn): State { s.(conns := s.conns[c := k]) }

  function Delivered(k: Conn, p: Payload): Conn {
    k.(queue := Queues.Pushed(k.queue, Some(p)), arrived := k.arrived + [p])
  }

  /** The datagram's address is in the listener's variable before the lookup starts. */
  function AcceptStep(before: State, a: Address, received: int): State {
    var s := before.(slot := a);
    if received <= 0 then s
    else
      match Find(s, s.connections, a)
      case None => s.(task := New(a, received))
      case Some(c) =>
        if c in s.conns && s.conns[c].expired then s.(task := Removing(c, Flag, Some((a, received))))
        else s.(task := Push(c, received, a))
  }

  function NewStep(s: State, a: Address, size: nat): State {
    if |s.connections| >= CLIENT_MAX_CONNECTIONS then s.(task := Idle)
    else
      s.(conns := s.conns[s.ids := Conn(a, s.threadIds, [], true, false, Loop, false, [], [], 0)],
         connections := s.connections + [s.ids], threads := s.threads + [s.threadIds],
         ids := s.ids + 1, threadIds := s.threadIds + 1, task := Push(s.ids, size, a))
  }

  function PushStep(s: State, c: nat, size: nat, sender: Option<Address>, task: Task): State
    requires c in s.conns
  {
    Put(s, c, Delivered(s.conns[c], Payload(s.payloads, size, sender))).(payloads := s.payloads + 1, task := task)
  }

  /** remove_connection, from the search of the thread to the deletion of the connection. */
  function RemoveStep(s: State, c: nat, stage: Stage, next: Option<(Address, nat)>): Option<State>
    requires c in s.conns
  {
    var k := s.conns[c];
    match stage
    case Flag =>
      if k.thread in s.threads
      then Some(Put(s, c, k.(processing := false)).(task := Removing(c, Kick, next)))
      else Some(s.(task := Resumed(next)))
    case Kick => Some(PushStep(s, c, 0, None, Removing(c, Join, next)))
    case Join =>
      if k.worker.Done? then Some(s.(threads := Without(s.threads, k.thread), task := Removing(c, Clear, next)))
      else None
    case Clear =>
      if k.queue == [] then Some(s.(task := Removing(c, Delete, next)))
      else Some(Put(s, c, k.(queue := Queues.Popped(k.queue))).(freed := s.freed + multiset{k.queue[0].id}))
    case Delete =>
      Some(s.(conns := s.conns - {c}, connections := Without(s.connections, c), task := Resumed(next)))
  }

  function ProceedStep(s: State): Option<State> {
    match s.task
    case Idle => None
    case New(a, size) => Some(NewStep(s, a, size))
    case Push(c, size, a) => if c in s.conns then Some(PushStep(s, c, size, Some(a), Idle)) else None
    case Removing(c, stage, next) => if c in s.conns then RemoveStep(s, c, stage, next) else None
  }

  function WorkStep(s: State, c: nat, sendOk: bool): Option<State>
    requires c in s.conns
  {
    match WorkerStep(s.conns[c], sendOk)
    case None => None
    case Some((k, effect)) => Some(Effected(Put(s, c, k), effect))
  }

  function Effected(s: State, effect: Effect): State {
    match effect
    case Nothing => s
    case Frees(p) => s.(freed := s.freed + multiset{p})
    case Loses(p) => s.(lost := s.lost + {p})
  }

  function Next(s: State, action: Action): Option<State> {
    match action
    case Accept(a, received) => if s.task.Idle? then Some(AcceptStep(s, a, received)) else None
    case Remove(c) => if s.task.Idle? && c in s.conns then Some(s.(task := Removing(c, Flag, None))) else None
    case Tick(c) => if c in s.conns then Some(Put(s, c, s.conns[c].(expired := true))) else None
    case Work(c, sendOk) => if c in s.conns then WorkStep(s, c, sendOk) else None
    case Proceed => ProceedStep(s)
  }

  /** The state after a sequence of steps, None if one of them was blocked. */
  function Run(s: State, actions: seq<Action>): Option<State>
    decreases |actions|
  {
    if actions == [] then Some(s)
    else match Next(s, actions[0]) case None => None case Some(t) => Run(t, actions[1..])
  }
}
