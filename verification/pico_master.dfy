/** The RPi-400 side of the link: a state machine that sends a request and waits for the answer. */
module PicoMaster {
  import opened Bytes
  import opened Crc8
  import opened Octet
  import opened PicoFrame
  import opened SpiDevice

  datatype State = IDLE | MAKE_REQUEST | SEND_REQUEST | RECEIVE_HEADER | RECEIVE_DATA | ERROR | COMPLETE

  /** The fields of the protocol object; `message` is the buffer between making and sending a request. */
  datatype Master = Master(
    current: State, next: State, length: bv8, crc: bv8,
    request: seq<bv8>, answer: seq<bv8>, error: Option<Error>, message: seq<bv8>, line: Line)

  function Failed(m: Master, e: Error): Master { m.(error := Some(e), next := ERROR) }

  function MakeRequest(m: Master): Master {
    var m := m.(current := MAKE_REQUEST);
    if |m.request| > DATA_MAX_LENGTH then Failed(m, MessageSize)
    else m.(message := Frame(m.request), next := SEND_REQUEST)
  }

  function SendRequest(m: Master, ready: bool): Master {
    var m := m.(current := SEND_REQUEST);
    if !ready then Failed(m, InputOutput)
    else
      var t := Write(m.line, |m.message|, m.message);
      var m := m.(line := t.line, message := []);
      match t.error
      case Some(e) => Failed(m, e)
      case None => m.(next := RECEIVE_HEADER)
  }

  function ReceiveHeader(m: Master): Master {
    var m := m.(current := RECEIVE_HEADER);
    var t := Read(m.line, HEADER_LENGTH);
    var m := m.(line := t.line);
    match t.error
    case Some(e) => Failed(m, e)
    case None =>
      if t.data[0] != SIGNATURE_0 || t.data[1] != SIGNATURE_1 then Failed(m, Protocol)
      else m.(length := t.data[2], crc := t.data[3], next := RECEIVE_DATA)
  }

  function ReceiveData(m: Master): Master {
    var m := m.(current := RECEIVE_DATA);
    if Value(m.length) > DATA_MAX_LENGTH then Failed(m, BadMessage)
    else
      var t := Read(m.line, Value(m.length));
      var m := m.(line := t.line);
      match t.error
      case Some(e) => Failed(m, e)
      case None =>
        if Crc(t.data) != m.crc then Failed(m, BadMessage)
        else m.(answer := CString(t.data), next := COMPLETE)
  }

  predicate Terminal(s: State) { s == COMPLETE || s == ERROR }

  /** One turn of the loop. */
  function Turn(m: Master, ready: bool): Master {
    match m.next
    case MAKE_REQUEST => MakeRequest(m)
    case SEND_REQUEST => SendRequest(m, ready)
    case RECEIVE_HEADER => ReceiveHeader(m)
    case RECEIVE_DATA => ReceiveData(m)
    case ERROR => m.(current := ERROR)
    case COMPLETE => m.(current := COMPLETE)
    case IDLE => m
  }

  /** How many turns are left at most. */
  function Rank(m: Master): nat {
    if Terminal(m.current) then 0
    else
      match m.next
      case MAKE_REQUEST => 5
      case SEND_REQUEST => 4
      case RECEIVE_HEADER => 3
      case RECEIVE_DATA => 2
      case _ => 1
  }

  lemma TurnDecreases(m: Master, ready: bool)
    requires !Terminal(m.current) && m.next != IDLE
    ensures Rank(Turn(m, ready)) < Rank(m) && Turn(m, ready).next != IDLE
  {
  }

  function Run(m: Master, ready: bool): Master
    requires m.next != IDLE
    decreases Rank(m)
  {
    if Terminal(m.current) then m
    else
      TurnDecreases(m, ready);
      Run(Turn(m, ready), ready)
  }

  lemma RunTurn(m: Master, ready: bool)
    requires m.next != IDLE
    ensures if Terminal(m.current) then Run(m, ready) == m
            else Turn(m, ready).next != IDLE && Rank(Turn(m, ready)) < Rank(m)
                 && Run(m, ready) == Run(Turn(m, ready), ready)
  {
    if !Terminal(m.current) {
      TurnDecreases(m, ready);
    }
  }

  /** The first state keeps no limit on the message but the one `MakeRequest` gives it. */
  predicate Bounded(m: Master) { m.next == SEND_REQUEST ==> |m.message| <= RX_BUF_SIZE }

  lemma TurnBounded(m: Master, ready: bool)
    ensures m.next != IDLE ==> Bounded(Turn(m, ready))
  {
  }

  /** Between the turns: an error is set exactly if the next state is ERROR. */
  predicate Consistent(m: Master) {
    && (m.error.Some? <==> m.next == ERROR)
    && (Terminal(m.current) ==> m.next == m.current)
  }

  /** Every run ends, in COMPLETE exactly if no error is set, whatever the line delivers. */
  lemma {:induction false} RunEnds(m: Master, ready: bool)
    requires m.next != IDLE && Consistent(m)
    ensures var r := Run(m, ready);
            Terminal(r.current) && Consistent(r) && (r.current == COMPLETE <==> r.error.None?)
    decreases Rank(m)
  {
    if !Terminal(m.current) {
      TurnDecreases(m, ready);
      RunEnds(Turn(m, ready), ready);
    }
  }

}

/** The protocol object, proved against the functions above. */
module PicoMasterProtocol {
  import opened Bytes
  import opened Crc8
  import opened Octet
  import opened PicoFrame
  import opened SpiDevice
  import opened PicoMaster

  class PicoProtocol {
    const spi: Spi
    const ready: bool
    var current: State
    var next: State
    var length: bv8
    var crc: bv8
    var request: seq<bv8>
    var answer: seq<bv8>
    var error: Option<Error>
    var buffer: array<bv8>

    ghost predicate Valid()
      reads this, spi, spi.Repr
    {
      && spi.Valid() && this !in spi.Repr && buffer !in spi.Repr
    }

    ghost function State(): Master
      reads this, spi, buffer
    {
      Master(current, next, length, crc, request, answer, error, buffer[..], spi.State())
    }

    constructor (incoming: seq<bv8>, ready: bool)
      ensures Valid() && fresh(spi.Repr) && fresh(buffer) && this.ready == ready
      ensures State() == Master(IDLE, IDLE, 0, 0, [], [], None, [], Line(TX_BUF_SIZE, incoming, []))
    {
      spi := new Spi(incoming);
      this.ready := ready;
      current, next, length, crc, request, answer, error := IDLE, IDLE, 0, 0, [], [], None;
      buffer := new bv8[0];
    }

    method MakeRequest()
      requires Valid()
      modifies this`current, this`next, this`error, this`buffer
      ensures Valid() && (buffer == old(buffer) || fresh(buffer))
      ensures State() == PicoMaster.MakeRequest(old(State()))
    {
      hide Crc, Frame, LowByte;
      current := MAKE_REQUEST;
      if |request| > DATA_MAX_LENGTH {
        error, next := Some(MessageSize), ERROR;
        return;
      }
      var n := HEADER_LENGTH + |request|;
      var message := new bv8[n](_ => 0);
      FillAt(message, HEADER_LENGTH, request);
      var computed := CalculateCrc(message, HEADER_LENGTH, |request|);
      ghost var data := message[HEADER_LENGTH..];
      FillAt(message, 0, [SIGNATURE_0, SIGNATURE_1, LowByte(|request|), computed]);
      assert message[4..] == data;
      IsFrame(message[..], request);
      buffer := message;
      next := SEND_REQUEST;
    }

    method SendRequest()
      requires Valid() && buffer.Length <= RX_BUF_SIZE
      modifies this`current, this`next, this`error, this`buffer, spi.Repr
      ensures Valid() && fresh(spi.Repr - old(spi.Repr)) && (buffer == old(buffer) || fresh(buffer))
      ensures State() == PicoMaster.SendRequest(old(State()), ready)
    {
      current := SEND_REQUEST;
      if !ready {
        error, next := Some(InputOutput), ERROR;
        return;
      }
      var failed := spi.WriteBlocking(buffer, buffer.Length);
      buffer := new bv8[0];
      assert buffer[..] == [];
      if failed.Some? {
        error, next := failed, ERROR;
        return;
      }
      next := RECEIVE_HEADER;
    }

    method ReceiveHeader()
      requires Valid()
      modifies this`current, this`next, this`error, this`length, this`crc, spi.Repr
      ensures Valid() && spi.Repr == old(spi.Repr) && State() == PicoMaster.ReceiveHeader(old(State()))
    {
      current := RECEIVE_HEADER;
      var header := new bv8[HEADER_LENGTH](_ => 0);
      var failed := spi.ReadBlockingInto(header, HEADER_LENGTH);
      if failed.Some? {
        error, next := failed, ERROR;
        return;
      }
      ghost var data := header[..HEADER_LENGTH];
      assert forall i :: 0 <= i < HEADER_LENGTH ==> data[i] == header[i];
      if header[0] != SIGNATURE_0 || header[1] != SIGNATURE_1 {
        error, next := Some(Protocol), ERROR;
        return;
      }
      length, crc, next := header[2], header[3], RECEIVE_DATA;
    }

    method ReceiveData()
      requires Valid()
      modifies this`current, this`next, this`error, this`answer, spi.Repr
      ensures Valid() && spi.Repr == old(spi.Repr) && State() == PicoMaster.ReceiveData(old(State()))
    {
      hide Crc, CString, Exchange, Read, Value;
      current := RECEIVE_DATA;
      if Value(length) > DATA_MAX_LENGTH {
        error, next := Some(BadMessage), ERROR;
        return;
      }
      var n := Value(length);
      var failed := spi.ReadBlocking(n);
      if failed.Some? {
        error, next := failed, ERROR;
        return;
      }
      assert spi.rxData[0..n] == spi.rxData[..][..n];
      var computed := CalculateCrc(spi.rxData, 0, n);
      if computed != crc {
        error, next := Some(BadMessage), ERROR;
        return;
      }
      CStringPadded(spi.rxData[..n], RX_BUF_SIZE - n);
      answer := CString(spi.rxData[..]);
      next := COMPLETE;
    }

    /** A request and its answer. A second call finds a terminal state and returns the first call's answer. */
    method Transfer(request: seq<bv8>) returns (answer: seq<bv8>, error: Option<Error>)
      requires Valid() && !(current in {MAKE_REQUEST, SEND_REQUEST, RECEIVE_HEADER, RECEIVE_DATA})
      modifies this, spi.Repr
      ensures Valid()
      ensures State() == Run(old(State()).(request := request, next := MAKE_REQUEST), ready)
      ensures answer == this.answer && error == this.error
      ensures old(Terminal(current)) ==> answer == old(this.answer) && spi.State() == old(spi.State())
    {
      hide Run, Turn, Rank, PicoMaster.MakeRequest, PicoMaster.SendRequest, PicoMaster.ReceiveHeader,
        PicoMaster.ReceiveData;
      this.request := request;
      next := MAKE_REQUEST;
      ghost var start := State();
      RunTurn(start, ready);
      while current != COMPLETE && current != ERROR
        invariant Valid() && next != IDLE && Bounded(State())
        invariant Run(State(), ready) == Run(start, ready)
        invariant fresh(spi.Repr - old(spi.Repr)) && (buffer == old(buffer) || fresh(buffer))
        invariant Terminal(start.current) ==> State() == start
        decreases Rank(State())
      {
        RunTurn(State(), ready);
        TurnBounded(State(), ready);
        OneTurn();
      }
      RunTurn(State(), ready);
      answer, error := this.answer, this.error;
    }

    method OneTurn()
      requires Valid() && next != IDLE && Bounded(State())
      modifies this, spi.Repr
      ensures Valid() && fresh(spi.Repr - old(spi.Repr)) && (buffer == old(buffer) || fresh(buffer))
      ensures State() == Turn(old(State()), ready)
    {
      match next {
        case MAKE_REQUEST => MakeRequest();
        case SEND_REQUEST => SendRequest();
        case RECEIVE_HEADER => ReceiveHeader();
        case RECEIVE_DATA => ReceiveData();
        case ERROR => current := ERROR;
        case COMPLETE => current := COMPLETE;
      }
    }
  }
}
