/** The Pico side of the link: a state machine that receives a request, handles it and answers. */
module PicoSlave {
  import opened Bytes
  import opened Crc8
  import opened Octet
  import opened PicoFrame

  const BUFFER_SIZE := 255

  datatype State = IDLE | RECEIVE_HEADER | RECEIVE_DATA | HANDLE_REQUEST | MAKE_ANSWER | SEND_ANSWER | ERROR | COMPLETE

  /** What the callback leaves in the answer, and whether it sets an error. */
  datatype Reply = Reply(answer: seq<bv8>, failed: bool)

  /** The callback gets the request and the answer as it was; a null callback is `None`. */
  type Handler = Option<(seq<bv8>, seq<bv8>) -> Reply>

  datatype Slave = Slave(
    current: State, next: State, length: bv8, crc: bv8, answer: seq<bv8>, error: Option<Error>,
    tx: seq<bv8>, rx: seq<bv8>, incoming: seq<bv8>, sent: seq<bv8>)

  predicate Shaped(s: Slave) { |s.tx| == |s.rx| == BUFFER_SIZE }

  function Min(a: nat, b: nat): nat { if a < b then a else b }

  function Failed(s: Slave, e: Error): Slave { s.(error := Some(e), next := ERROR) }

  /** A blocking transfer: as many of the bytes as the line clocks in. */
  function Exchange(s: Slave, out: seq<bv8>): Slave {
    var n := Min(|out|, |s.incoming|);
    s.(incoming := s.incoming[n..], sent := s.sent + out[..n])
  }

  function ReceiveHeader(s: Slave): Slave {
    var s := s.(current := RECEIVE_HEADER);
    var header := s.incoming[..Min(HEADER_LENGTH, |s.incoming|)];
    var s := Exchange(s, Zeros(HEADER_LENGTH));
    if |header| != HEADER_LENGTH then Failed(s, Protocol)
    else if header[0] != SIGNATURE_0 || header[1] != SIGNATURE_1 then Failed(s, Protocol)
    else s.(length := header[2], crc := header[3], next := RECEIVE_DATA)
  }

  function ReceiveData(s: Slave): Slave {
    var s := s.(current := RECEIVE_DATA);
    var n := Value(s.length);
    if n > DATA_MAX_LENGTH then Failed(s, BadMessage)
    else
      var data := s.incoming[..Min(n, |s.incoming|)];
      var s := Exchange(s, Zeros(n)).(rx := data + Zeros(BUFFER_SIZE - |data|));
      if |data| != n then Failed(s, Protocol)
      else if Crc(data) != s.crc then Failed(s, BadMessage)
      else s.(next := HANDLE_REQUEST)
  }

  function HandleRequest(s: Slave, handler: Handler): Slave {
    var s := s.(current := HANDLE_REQUEST);
    var request := CString(s.rx);
    match handler
    case None => s.(answer := request, next := MAKE_ANSWER)
    case Some(h) =>
      var reply := h(request, s.answer);
      var s := s.(answer := reply.answer);
      if reply.failed then Failed(s, HandlerFailed) else s.(next := MAKE_ANSWER)
  }

  function MakeAnswer(s: Slave): Slave {
    var s := s.(current := MAKE_ANSWER);
    var n := |s.answer|;
    if n > DATA_MAX_LENGTH then Failed(s, MessageSize)
    else s.(tx := Frame(s.answer) + Zeros(BUFFER_SIZE - HEADER_LENGTH - n),
            length := LowByte(HEADER_LENGTH + n), next := SEND_ANSWER)
  }

  function SendAnswer(s: Slave): Slave {
    var s := s.(current := SEND_ANSWER);
    var n := Min(Value(s.length), |s.tx|);
    var clocked := |s.incoming|;
    var s := Exchange(s, s.tx[..n]);
    if clocked < n then Failed(s, Protocol) else s.(next := COMPLETE)
  }

  predicate Terminal(s: State) { s == COMPLETE || s == ERROR }

  function Turn(s: Slave, handler: Handler): Slave {
    match s.next
    case RECEIVE_HEADER => ReceiveHeader(s)
    case RECEIVE_DATA => ReceiveData(s)
    case HANDLE_REQUEST => HandleRequest(s, handler)
    case MAKE_ANSWER => MakeAnswer(s)
    case SEND_ANSWER => SendAnswer(s)
    case ERROR => s.(current := ERROR)
    case COMPLETE => s.(current := COMPLETE)
    case IDLE => s
  }

  function Rank(s: Slave): nat {
    if Terminal(s.current) then 0
    else
      match s.next
      case RECEIVE_HEADER => 6
      case RECEIVE_DATA => 5
      case HANDLE_REQUEST => 4
      case MAKE_ANSWER => 3
      case SEND_ANSWER => 2
      case _ => 1
  }

  lemma TurnDecreases(s: Slave, handler: Handler)
    requires !Terminal(s.current) && s.next != IDLE
    ensures Rank(Turn(s, handler)) < Rank(s) && Turn(s, handler).next != IDLE
  {
    hide Crc, Frame, CString, Zeros, LowByte, Value, Min;
  }

  function Run(s: Slave, handler: Handler): Slave
    requires s.next != IDLE
    decreases Rank(s)
  {
    if Terminal(s.current) then s
    else
      TurnDecreases(s, handler);
      Run(Turn(s, handler), handler)
  }

  lemma RunTurn(s: Slave, handler: Handler)
    requires s.next != IDLE
    ensures if Terminal(s.current) then Run(s, handler) == s
            else Turn(s, handler).next != IDLE && Rank(Turn(s, handler)) < Rank(s)
                 && Run(s, handler) == Run(Turn(s, handler), handler)
  {
    if !Terminal(s.current) {
      TurnDecreases(s, handler);
    }
  }

  predicate Consistent(s: Slave) {
    && (s.error.Some? <==> s.next == ERROR)
    && (Terminal(s.current) ==> s.next == s.current)
  }

  lemma TurnConsistent(s: Slave, handler: Handler)
    requires !Terminal(s.current) && s.next != IDLE && Consistent(s)
    ensures Consistent(Turn(s, handler))
  {
    hide Crc, Frame, CString, Zeros, LowByte, Value, Min;
  }

  /** Every run ends, in COMPLETE exactly if no error is set, whatever the line delivers. */
  lemma {:induction false} RunEnds(s: Slave, handler: Handler)
    requires s.next != IDLE && Consistent(s)
    ensures var r := Run(s, handler);
            Terminal(r.current) && Consistent(r) && (r.current == COMPLETE <==> r.error.None?)
    decreases Rank(s)
  {
    hide Turn, Rank;
    if !Terminal(s.current) {
      TurnDecreases(s, handler);
      TurnConsistent(s, handler);
      RunEnds(Turn(s, handler), handler);
    }
  }
}

/** The protocol object, proved against the functions above. */
module PicoSlaveProtocol {
  import opened Bytes
  import opened Crc8
  import opened Octet
  import opened PicoFrame
  import opened PicoSlave
  import opened SpiDevice

  lemma FrameInBuffer(tx: seq<bv8>, answer: seq<bv8>, end: nat)
    requires |tx| == BUFFER_SIZE && |answer| <= DATA_MAX_LENGTH && end == HEADER_LENGTH + |answer|
    requires tx[0..0 + 4] == [SIGNATURE_0, SIGNATURE_1, LowByte(|answer|), Crc(answer)]
    requires tx[4..] == answer + Zeros(BUFFER_SIZE - end)
    ensures tx == Frame(answer) + Zeros(BUFFER_SIZE - end)
  {
    hide Crc, LowByte;
    assert tx == tx[0..0 + 4] + tx[4..];
  }

  class PicoProtocol {
    const handler: Handler
    var current: State
    var next: State
    var length: bv8
    var crc: bv8
    var answer: seq<bv8>
    var error: Option<Error>
    const txBuffer: array<bv8>
    const rxBuffer: array<bv8>
    var incoming: seq<bv8>
    var sent: seq<bv8>

    ghost predicate Valid()
      reads this
    {
      txBuffer.Length == rxBuffer.Length == BUFFER_SIZE && txBuffer != rxBuffer
    }

    ghost function State(): (s: Slave)
      requires Valid()
      reads this, txBuffer, rxBuffer
      ensures Shaped(s)
    {
      Slave(current, next, length, crc, answer, error, txBuffer[..], rxBuffer[..], incoming, sent)
    }

    constructor (incoming: seq<bv8>, handler: Handler)
      ensures Valid() && fresh(txBuffer) && fresh(rxBuffer) && this.handler == handler
      ensures State() == Slave(IDLE, IDLE, 0, 0, [], None, Zeros(BUFFER_SIZE), Zeros(BUFFER_SIZE), incoming, [])
    {
      this.handler := handler;
      current, next, length, crc, answer, error := IDLE, IDLE, 0, 0, [], None;
      txBuffer := new bv8[BUFFER_SIZE](_ => 0);
      rxBuffer := new bv8[BUFFER_SIZE](_ => 0);
      this.incoming, sent := incoming, [];
      new;
      assert txBuffer[..] == Zeros(BUFFER_SIZE) && rxBuffer[..] == Zeros(BUFFER_SIZE);
    }

    /** Reads while zeros are sent; fewer bytes come back if the line clocks fewer. */
    method SpiRead(length: nat) returns (data: seq<bv8>)
      modifies this`incoming, this`sent
      ensures data == old(incoming)[..Min(length, |old(incoming)|)]
      ensures incoming == old(incoming)[|data|..] && sent == old(sent) + Zeros(length)[..|data|]
    {
      var n := Min(length, |incoming|);
      data := incoming[..n];
      incoming, sent := incoming[n..], sent + Zeros(length)[..n];
    }

    method SpiWrite(data: seq<bv8>) returns (transmitted: nat)
      modifies this`incoming, this`sent
      ensures transmitted == Min(|data|, |old(incoming)|)
      ensures incoming == old(incoming)[transmitted..] && sent == old(sent) + data[..transmitted]
    {
      transmitted := Min(|data|, |incoming|);
      incoming, sent := incoming[transmitted..], sent + data[..transmitted];
    }

    method ReceiveHeader()
      requires Valid()
      modifies this`current, this`next, this`error, this`length, this`crc, this`incoming, this`sent
      ensures State() == PicoSlave.ReceiveHeader(old(State()))
    {
      current := RECEIVE_HEADER;
      var header := SpiRead(HEADER_LENGTH);
      if |header| != HEADER_LENGTH {
        error, next := Some(Protocol), ERROR;
        return;
      }
      if header[0] != SIGNATURE_0 || header[1] != SIGNATURE_1 {
        error, next := Some(Protocol), ERROR;
        return;
      }
      length, crc, next := header[2], header[3], RECEIVE_DATA;
    }

    method ReceiveData()
      requires Valid()
      modifies this`current, this`next, this`error, this`incoming, this`sent, rxBuffer
      ensures State() == PicoSlave.ReceiveData(old(State()))
    {
      hide Crc, Value;
      current := RECEIVE_DATA;
      if Value(length) > DATA_MAX_LENGTH {
        error, next := Some(BadMessage), ERROR;
        return;
      }
      Fill(rxBuffer, Zeros(BUFFER_SIZE));
      var data := SpiRead(Value(length));
      Fill(rxBuffer, data);
      assert rxBuffer[..] == data + Zeros(BUFFER_SIZE - |data|);
      if |data| != Value(length) {
        error, next := Some(Protocol), ERROR;
        return;
      }
      assert rxBuffer[0..0 + |data|] == data;
      var computed := CalculateCrc(rxBuffer, 0, |data|);
      if computed != crc {
        error, next := Some(BadMessage), ERROR;
        return;
      }
      next := HANDLE_REQUEST;
    }

    method HandleRequest()
      requires Valid()
      modifies this`current, this`next, this`error, this`answer
      ensures State() == PicoSlave.HandleRequest(old(State()), handler)
    {
      hide CString;
      current := HANDLE_REQUEST;
      var request := CString(rxBuffer[..]);
      if handler.Some? {
        var reply := (handler.value)(request, answer);
        answer := reply.answer;
        if reply.failed {
          error, next := Some(HandlerFailed), ERROR;
          return;
        }
      } else {
        answer := request;
      }
      next := MAKE_ANSWER;
    }

    method MakeAnswer()
      requires Valid()
      modifies this`current, this`next, this`error, this`length, txBuffer
      ensures State() == PicoSlave.MakeAnswer(old(State()))
    {
      hide Crc, Frame, LowByte;
      current := MAKE_ANSWER;
      var n := |answer|;
      if n > DATA_MAX_LENGTH {
        error, next := Some(MessageSize), ERROR;
        return;
      }
      Fill(txBuffer, Zeros(BUFFER_SIZE));
      assert txBuffer[..] == Zeros(BUFFER_SIZE);
      FillAt(txBuffer, HEADER_LENGTH, answer);
      assert txBuffer[HEADER_LENGTH..] == answer + Zeros(BUFFER_SIZE - HEADER_LENGTH - n);
      var computed := CalculateCrc(txBuffer, HEADER_LENGTH, n);
      FillAt(txBuffer, 0, [SIGNATURE_0, SIGNATURE_1, LowByte(n), computed]);
      ghost var end := HEADER_LENGTH + n;
      FrameInBuffer(txBuffer[..], answer, end);
      length := LowByte(HEADER_LENGTH + n);
      next := SEND_ANSWER;
    }

    method SendAnswer()
      requires Valid()
      modifies this`current, this`next, this`error, this`incoming, this`sent
      ensures State() == PicoSlave.SendAnswer(old(State()))
    {
      hide Value;
      current := SEND_ANSWER;
      var n := Min(Value(length), txBuffer.Length);
      var transmitted := SpiWrite(txBuffer[..n]);
      if transmitted != n {
        error, next := Some(Protocol), ERROR;
        return;
      }
      next := COMPLETE;
    }

    method OneTurn()
      requires Valid() && next != IDLE
      modifies this, txBuffer, rxBuffer
      ensures State() == Turn(old(State()), handler)
    {
      match next {
        case RECEIVE_HEADER => ReceiveHeader();
        case RECEIVE_DATA => ReceiveData();
        case HANDLE_REQUEST => HandleRequest();
        case MAKE_ANSWER => MakeAnswer();
        case SEND_ANSWER => SendAnswer();
        case ERROR => current := ERROR;
        case COMPLETE => current := COMPLETE;
      }
    }

    /** Serves one request; a second call finds a terminal state and does nothing. */
    method Process() returns (error: Option<Error>)
      requires Valid()
      modifies this, txBuffer, rxBuffer
      ensures State() == Run(old(State()).(next := RECEIVE_HEADER), handler)
      ensures error == this.error
      ensures old(Terminal(current)) ==> sent == old(sent) && error == old(this.error)
    {
      hide Run, Turn, Rank, PicoSlave.ReceiveHeader, PicoSlave.ReceiveData, PicoSlave.HandleRequest,
        PicoSlave.MakeAnswer, PicoSlave.SendAnswer;
      next := RECEIVE_HEADER;
      ghost var start := State();
      RunTurn(start, handler);
      while current != COMPLETE && current != ERROR
        invariant next != IDLE
        invariant Run(State(), handler) == Run(start, handler)
        invariant Terminal(start.current) ==> State() == start
        decreases Rank(State())
      {
        RunTurn(State(), handler);
        OneTurn();
      }
      RunTurn(State(), handler);
      error := this.error;
    }
  }
}
