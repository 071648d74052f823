/** The frame on the SPI line in literal numbers, and every outcome of a run with the error that is set. */
module PicoFormat {
  import opened Bytes
  import opened Crc8
  import opened Octet
  import opened PicoFrame
  import opened SpiDevice
  import opened PicoLink
  import M = PicoMaster
  import S = PicoSlave

  // ------------------------------------------------------------- the frame

  /** Two signature bytes, the length, the checksum, and the data. */
  lemma FrameIs(data: seq<bv8>)
    requires |data| <= 251
    ensures var b := Frame(data);
            && |b| == 4 + |data| && b[0] == 0xA5 && b[1] == 0x5A
            && b[2] as int == |data| && b[3] == Crc(data) && b[4..] == data
  {
    hide Crc, LowByte;
    LowByteIs(|data|);
  }

  lemma EmptyCrc()
    ensures Crc([]) == 0xFF
  {
  }

  lemma CrcStep(data: seq<bv8>, last: bv8, before: bv8)
    requires Crc(data) == before
    ensures Crc(data + [last]) == BitSteps(before ^ last, 8)
  {
    hide BitSteps;
    assert (data + [last])[..|data|] == data;
  }

  lemma EightSteps(s: seq<bv8>)
    requires |s| == 9 && forall i :: 0 <= i < 8 ==> BitStep(s[i]) == s[i + 1]
    ensures BitSteps(s[0], 8) == s[8]
  {
    hide BitStep;
    for i := 0 to 8
      invariant BitSteps(s[0], i) == s[i]
    {
      assert BitSteps(s[0], i + 1) == BitStep(s[i]);
    }
  }

  lemma NextValue(data: seq<bv8>, last: bv8, before: bv8, s: seq<bv8>)
    requires Crc(data) == before && |s| == 9 && s[0] == before ^ last
    requires forall i :: 0 <= i < 8 ==> BitStep(s[i]) == s[i + 1]
    ensures Crc(data + [last]) == s[8]
  {
    hide BitStep, BitSteps, Crc;
    CrcStep(data, last, before);
    EightSteps(s);
  }

  lemma FirstDigits()
    ensures Crc([0x31, 0x32, 0x33, 0x34, 0x35]) == 0x9d
  {
    hide Crc, BitSteps;
    var b: seq<bv8> := [0x31, 0x32, 0x33, 0x34, 0x35];
    EmptyCrc();
    assert b[..0] == [];
    NextValue(b[..0], 0x31, 0xff,
              [0xce, 0xad, 0x6b, 0xd6, 0x9d, 0x0b, 0x16, 0x2c, 0x58]);
    assert b[..0] + [0x31] == b[..1];
    NextValue(b[..1], 0x32, 0x58,
              [0x6a, 0xd4, 0x99, 0x03, 0x06, 0x0c, 0x18, 0x30, 0x60]);
    assert b[..1] + [0x32] == b[..2];
    NextValue(b[..2], 0x33, 0x60,
              [0x53, 0xa6, 0x7d, 0xfa, 0xc5, 0xbb, 0x47, 0x8e, 0x2d]);
    assert b[..2] + [0x33] == b[..3];
    NextValue(b[..3], 0x34, 0x2d,
              [0x19, 0x32, 0x64, 0xc8, 0xa1, 0x73, 0xe6, 0xfd, 0xcb]);
    assert b[..3] + [0x34] == b[..4];
    NextValue(b[..4], 0x35, 0xcb,
              [0xfe, 0xcd, 0xab, 0x67, 0xce, 0xad, 0x6b, 0xd6, 0x9d]);
    assert b[..4] + [0x35] == b[..5];
    assert b[..5] == b;
  }

  /** The value for the digits one to nine, by which such a checksum is known. */
  lemma CheckValue()
    ensures Crc([0x31, 0x32, 0x33, 0x34, 0x35, 0x36, 0x37, 0x38, 0x39]) == 0xF7
  {
    hide Crc, BitSteps;
    var b: seq<bv8> := [0x31, 0x32, 0x33, 0x34, 0x35, 0x36, 0x37, 0x38, 0x39];
    FirstDigits();
    assert b[..5] == [0x31, 0x32, 0x33, 0x34, 0x35];
    NextValue(b[..5], 0x36, 0x9d,
              [0xab, 0x67, 0xce, 0xad, 0x6b, 0xd6, 0x9d, 0x0b, 0x16]);
    assert b[..5] + [0x36] == b[..6];
    NextValue(b[..6], 0x37, 0x16,
              [0x21, 0x42, 0x84, 0x39, 0x72, 0xe4, 0xf9, 0xc3, 0xb7]);
    assert b[..6] + [0x37] == b[..7];
    NextValue(b[..7], 0x38, 0xb7,
              [0x8f, 0x2f, 0x5e, 0xbc, 0x49, 0x92, 0x15, 0x2a, 0x54]);
    assert b[..7] + [0x38] == b[..8];
    NextValue(b[..8], 0x39, 0x54,
              [0x6d, 0xda, 0x85, 0x3b, 0x76, 0xec, 0xe9, 0xe3, 0xf7]);
    assert b[..8] + [0x39] == b[..9];
    assert b[..9] == b;
  }

  /** `b` starts with a frame of these data. */
  predicate Framed(b: seq<bv8>, data: seq<bv8>) {
    && 4 + |data| <= |b| && |data| <= 251
    && b[0] == 0xA5 && b[1] == 0x5A && b[2] as int == |data| && b[3] == Crc(data) && b[4..4 + |data|] == data
  }

  lemma CarriesIs(b: seq<bv8>, data: seq<bv8>)
    ensures Carries(b, data) <==> Framed(b, data)
  {
    hide Crc, Value;
    if 3 <= |b| {
      ValueIs(b[2]);
    }
  }

  // ------------------------------------------------------------- the answer

  /** The handler gets the request up to its first zero; without one that is the answer. */
  lemma AnswerIs(data: seq<bv8>, handler: S.Handler, text: seq<bv8>)
    requires ZeroFreeStart(text, data)
    ensures AnswerTo(data, handler) ==
              match handler
              case None => Some(text)
              case Some(h) => if h(text, []).failed then None else Some(h(text, []).answer)
  {
    hide CString;
    CStringIs(data, text);
  }

  /** A request of at most 251 bytes, and an answer of 1 to 251 that is at most four bytes longer. */
  lemma ExchangeableIs(request: seq<bv8>, handler: S.Handler)
    ensures Exchangeable(request, handler)
            <==> && |request| <= 251 && AnswerTo(request, handler).Some?
                 && 1 <= |AnswerTo(request, handler).value| <= 251
                 && |AnswerTo(request, handler).value| <= |request| + 4
  {
    hide AnswerTo;
  }

  /** What the master returns after a completed exchange: the answer up to its first zero. */
  lemma ReturnedIs(request: seq<bv8>, handler: S.Handler, toSlave: seq<bv8>, toMaster: seq<bv8>)
    requires Coupled(request, handler, toSlave, toMaster) && BothComplete(request, handler, toSlave, toMaster)
    ensures AnswerTo(request, handler).Some?
    ensures ZeroFreeStart(M.Run(MasterStart(request, toMaster), true).answer, AnswerTo(request, handler).value)
  {
    hide M.Run, S.Run, Coupled, BothComplete, AnswerTo, CString, ZeroFreeStart, ToSlave, ToMaster;
    ExchangeOnlySo(request, handler, toSlave, toMaster);
    var answer := AnswerTo(request, handler).value;
    CStringIs(answer, CString(answer));
  }

  // ------------------------------------------------------------- the master's errors

  /** The error of the receiving half on a line that delivers `b`, with a transmit buffer of this capacity. */
  function ReceiveError(b: seq<bv8>, capacity: nat): Option<Error> {
    if |b| < 4 then Some(InputOutput)
    else if b[0] != 0xA5 || b[1] != 0x5A then Some(Protocol)
    else ReceivedError(b[4..], b[2] as int, b[3], capacity)
  }

  /** The error behind a header with this length and checksum if the line goes on with `b`. */
  function ReceivedError(b: seq<bv8>, n: nat, crc: bv8, capacity: nat): Option<Error> {
    if n > 251 then Some(BadMessage)
    else if n == 0 || n > capacity then Some(InvalidArgument)
    else if |b| < n then Some(InputOutput)
    else if Crc(b[..n]) != crc then Some(BadMessage)
    else None
  }

  function MasterError(request: seq<bv8>, incoming: seq<bv8>): Option<Error> {
    if |request| > 251 then Some(MessageSize)
    else if |incoming| < 4 + |request| then Some(InputOutput)
    else ReceiveError(incoming[4 + |request|..], 4 + |request|)
  }

  lemma MasterFailsWith(m: M.Master, e: Error)
    requires !M.Terminal(m.current) && m.next == M.ERROR && m.error == Some(e)
    ensures M.Run(m, true).error == Some(e)
  {
    hide M.Run;
    MasterFails(m);
  }

  lemma MasterHeaderError(m: M.Master)
    requires m.next == M.RECEIVE_HEADER && m.error.None? && 4 <= m.line.capacity <= 256
    ensures var r, b := M.Turn(m, true), m.line.incoming;
            && r.current == M.RECEIVE_HEADER
            && (if |b| < 4 then r.next == M.ERROR && r.error == Some(InputOutput)
                else if b[0] != 0xA5 || b[1] != 0x5A then r.next == M.ERROR && r.error == Some(Protocol)
                else r.next == M.RECEIVE_DATA && r.error.None? && r.length == b[2] && r.crc == b[3]
                     && r.line.capacity == m.line.capacity && r.line.incoming == b[4..])
  {
  }

  lemma MasterDataError(m: M.Master, n: nat)
    requires m.next == M.RECEIVE_DATA && m.error.None? && m.line.capacity <= 256 && n == Value(m.length)
    ensures var r, b := M.Turn(m, true), m.line.incoming;
            && r.current == M.RECEIVE_DATA
            && r.error == ReceivedError(b, n, m.crc, m.line.capacity)
            && r.next == (if r.error.Some? then M.ERROR else M.COMPLETE)
  {
    hide Crc, Value, CString, Zeros;
  }

  lemma ReceivedErrorIs(m: M.Master, n: nat)
    requires !M.Terminal(m.current) && m.next == M.RECEIVE_DATA && m.error.None? && m.line.capacity <= 256
    requires n == Value(m.length)
    ensures M.Run(m, true).error == ReceivedError(m.line.incoming, n, m.crc, m.line.capacity)
  {
    hide ReceivedError, Value, M.Run, M.Turn;
    M.RunTurn(m, true);
    MasterDataError(m, n);
    var m2 := M.Turn(m, true);
    if m2.next == M.ERROR {
      MasterFailsWith(m2, m2.error.value);
    } else {
      M.RunTurn(m2, true);
      MasterCompletes(m2);
      M.RunTurn(M.Turn(m2, true), true);
    }
  }

  lemma ReceiveErrorIs(m: M.Master)
    requires !M.Terminal(m.current) && m.next == M.RECEIVE_HEADER && m.error.None? && 4 <= m.line.capacity <= 256
    ensures M.Run(m, true).error == ReceiveError(m.line.incoming, m.line.capacity)
  {
    hide ReceivedError, Value, M.Run, M.Turn;
    M.RunTurn(m, true);
    MasterHeaderError(m);
    var m1, b := M.Turn(m, true), m.line.incoming;
    if m1.next == M.ERROR {
      MasterFailsWith(m1, m1.error.value);
    } else {
      ValueIs(b[2]);
      ReceivedErrorIs(m1, b[2] as int);
    }
  }

  /** The error of every run of the master, whatever the line delivers; it completes if there is none. */
  lemma MasterOutcome(request: seq<bv8>, incoming: seq<bv8>)
    ensures var r := M.Run(MasterStart(request, incoming), true);
            r.error == MasterError(request, incoming) && (r.current == M.COMPLETE <==> r.error.None?)
  {
    hide Crc, LowByte, M.Run, ReceiveError;
    M.RunEnds(MasterStart(request, incoming), true);
    var n := 4 + |request|;
    if |request| > 251 {
      TooLongRequest(request, incoming);
    } else if |incoming| < n {
      WriteCutShort(request, incoming);
    } else {
      MasterSends(request, incoming);
      ReceiveErrorIs(M.Master(M.SEND_REQUEST, M.RECEIVE_HEADER, 0, 0, request, [], None, [],
                              Line(n, incoming[n..], Frame(request))));
    }
  }

  lemma TooLongRequest(request: seq<bv8>, incoming: seq<bv8>)
    requires |request| > 251
    ensures M.Run(MasterStart(request, incoming), true).error == Some(MessageSize)
  {
    hide Crc, LowByte, M.Run;
    M.RunTurn(MasterStart(request, incoming), true);
    MasterFailsWith(M.Turn(MasterStart(request, incoming), true), MessageSize);
  }

  // ------------------------------------------------------------- the slave's errors

  function SlaveError(incoming: seq<bv8>, handler: S.Handler): Option<Error> {
    if |incoming| < 4 || incoming[0] != 0xA5 || incoming[1] != 0x5A then Some(Protocol)
    else
      var n := incoming[2] as int;
      if n > 251 then Some(BadMessage)
      else if |incoming| < 4 + n then Some(Protocol)
      else if Crc(incoming[4..4 + n]) != incoming[3] then Some(BadMessage)
      else AnswerError(AnswerTo(incoming[4..4 + n], handler), |incoming| - 4 - n)
  }

  /** The error behind a header of this length and checksum if the line goes on with `b`. */
  function DataError(b: seq<bv8>, n: nat, crc: bv8, handler: S.Handler): Option<Error> {
    var refusal := Refusal(b, n, crc);
    if refusal.Some? then refusal else AnswerError(AnswerTo(b[..n], handler), |b| - n)
  }

  function Refusal(b: seq<bv8>, n: nat, crc: bv8): (r: Option<Error>)
    ensures r.None? ==> n <= |b| && n <= 251
  {
    if n > 251 then Some(BadMessage)
    else if |b| < n then Some(Protocol)
    else if Crc(b[..n]) != crc then Some(BadMessage)
    else None
  }

  /** The error of the answering half if the line clocks `clocked` more bytes. */
  function AnswerError(answer: Option<seq<bv8>>, clocked: nat): Option<Error> {
    if answer.None? then Some(HandlerFailed)
    else if |answer.value| > 251 then Some(MessageSize)
    else if clocked < 4 + |answer.value| then Some(Protocol)
    else None
  }

  lemma SlaveFailsWith(s: S.Slave, handler: S.Handler, e: Error)
    requires !S.Terminal(s.current) && s.next == S.ERROR && s.error == Some(e)
    ensures S.Run(s, handler).error == Some(e)
  {
    hide S.Run;
    SlaveFails(s, handler);
  }

  lemma SlaveHeaderError(s: S.Slave, handler: S.Handler)
    requires s.next == S.RECEIVE_HEADER && s.error.None?
    ensures var r, b := S.Turn(s, handler), s.incoming;
            && r.current == S.RECEIVE_HEADER
            && (if |b| < 4 || b[0] != 0xA5 || b[1] != 0x5A then r.next == S.ERROR && r.error == Some(Protocol)
                else r == s.(current := S.RECEIVE_HEADER, length := b[2], crc := b[3], next := S.RECEIVE_DATA,
                             incoming := b[4..], sent := r.sent))
  {
    hide Zeros;
  }

  lemma SlaveDataError(s: S.Slave, n: nat, handler: S.Handler)
    requires s.next == S.RECEIVE_DATA && s.error.None? && n == Value(s.length)
    ensures var r, b := S.Turn(s, handler), s.incoming;
            && r.current == S.RECEIVE_DATA
            && (if Refusal(b, n, s.crc).Some? then r.next == S.ERROR && r.error == Refusal(b, n, s.crc)
                else r == s.(current := S.RECEIVE_DATA, next := S.HANDLE_REQUEST, incoming := b[n..],
                             rx := b[..n] + Zeros(255 - n), sent := r.sent))
  {
    hide Crc, Value, Zeros;
  }

  lemma AnswerErrorIs(s: S.Slave, data: seq<bv8>, handler: S.Handler)
    requires !S.Terminal(s.current) && s.next == S.HANDLE_REQUEST && |data| <= 255 && s.answer == []
    requires s.rx == data + Zeros(255 - |data|) && s.error.None?
    ensures S.Run(s, handler).error == AnswerError(AnswerTo(data, handler), |s.incoming|)
  {
    hide Crc, Value, S.Run, S.Turn, CString, AnswerTo, LowByte, Frame;
    S.RunTurn(s, handler);
    SlaveHandles(s, handler, data);
    HandlerError(s, handler);
    var s3 := S.Turn(s, handler);
    if s3.next == S.ERROR {
      SlaveFailsWith(s3, handler, HandlerFailed);
      return;
    }
    S.RunTurn(s3, handler);
    SlaveMakes(s3, handler);
    LongAnswerError(s3, handler);
    var s4 := S.Turn(s3, handler);
    if s4.next == S.ERROR {
      SlaveFailsWith(s4, handler, MessageSize);
      return;
    }
    S.RunTurn(s4, handler);
    SlaveSends(s4, handler, s3.answer);
    SendError(s4, handler);
    var s5 := S.Turn(s4, handler);
    if s5.next == S.ERROR {
      SlaveFailsWith(s5, handler, Protocol);
    } else {
      SlaveCompletes(s5, handler);
    }
  }

  lemma HandlerError(s: S.Slave, handler: S.Handler)
    requires s.next == S.HANDLE_REQUEST && s.error.None?
    ensures var r := S.Turn(s, handler);
            r.error == if r.next == S.ERROR then Some(HandlerFailed) else None
  {
    hide CString;
  }

  lemma LongAnswerError(s: S.Slave, handler: S.Handler)
    requires s.next == S.MAKE_ANSWER && s.error.None?
    ensures var r := S.Turn(s, handler);
            r.error == if r.next == S.ERROR then Some(MessageSize) else None
  {
    hide Crc, LowByte;
  }

  lemma SendError(s: S.Slave, handler: S.Handler)
    requires s.next == S.SEND_ANSWER && s.error.None?
    ensures var r := S.Turn(s, handler);
            r.error == if r.next == S.ERROR then Some(Protocol) else None
  {
    hide Value;
  }

  lemma SlaveReceiveErrorIs(s: S.Slave, n: nat, handler: S.Handler)
    requires !S.Terminal(s.current) && s.next == S.RECEIVE_DATA && s.error.None? && s.answer == []
    requires n == Value(s.length)
    ensures S.Run(s, handler).error == DataError(s.incoming, n, s.crc, handler)
  {
    hide Crc, S.Run, S.Turn, AnswerTo, AnswerError, Zeros, Refusal, Value;
    S.RunTurn(s, handler);
    SlaveDataError(s, n, handler);
    var s2 := S.Turn(s, handler);
    if s2.next == S.ERROR {
      SlaveFailsWith(s2, handler, s2.error.value);
    } else {
      AnswerErrorIs(s2, s.incoming[..n], handler);
    }
  }

  lemma DataErrorIs(b: seq<bv8>, handler: S.Handler)
    requires 4 <= |b| && b[0] == 0xA5 && b[1] == 0x5A
    ensures DataError(b[4..], b[2] as int, b[3], handler) == SlaveError(b, handler)
  {
    hide Crc, AnswerTo, AnswerError;
    var n := b[2] as int;
    if 4 + n <= |b| {
      assert b[4..][..n] == b[4..4 + n];
    }
  }

  /** The error of every run of the slave, whatever the line delivers; it completes if there is none. */
  lemma SlaveOutcome(incoming: seq<bv8>, handler: S.Handler)
    ensures var r := S.Run(SlaveStart(incoming), handler);
            r.error == SlaveError(incoming, handler) && (r.current == S.COMPLETE <==> r.error.None?)
  {
    hide Crc, S.Run, S.Turn, AnswerTo, AnswerError, DataError, Value, Zeros;
    var s := SlaveStart(incoming);
    S.RunEnds(s, handler);
    S.RunTurn(s, handler);
    SlaveHeaderError(s, handler);
    var s1 := S.Turn(s, handler);
    if s1.next == S.ERROR {
      SlaveFailsWith(s1, handler, Protocol);
    } else {
      ValueIs(incoming[2]);
      SlaveReceiveErrorIs(s1, incoming[2] as int, handler);
      DataErrorIs(incoming, handler);
    }
  }
}
