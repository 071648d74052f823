/** Runs of the two machines, alone against any line and together over a lossless one. */
module PicoLink {
  import opened Bytes
  import opened Gf2
  import opened Crc8
  import opened Crc8TwoBits
  import opened Octet
  import opened PicoFrame
  import opened SpiDevice
  import M = PicoMaster
  import S = PicoSlave

  /** `b` starts with a frame that a receiver takes as `data`. */
  predicate Carries(b: seq<bv8>, data: seq<bv8>) {
    && HEADER_LENGTH + |data| <= |b|
    && b[0] == SIGNATURE_0 && b[1] == SIGNATURE_1
    && Value(b[2]) == |data| <= DATA_MAX_LENGTH
    && b[3] == Crc(data) && b[HEADER_LENGTH..HEADER_LENGTH + |data|] == data
  }

  lemma FrameCarries(data: seq<bv8>, rest: seq<bv8>)
    requires |data| <= DATA_MAX_LENGTH
    ensures Carries(Frame(data) + rest, data)
  {
    hide Crc, LowByte, Value;
    ByteHolds(|data|);
    var b := Frame(data) + rest;
    assert b[HEADER_LENGTH..HEADER_LENGTH + |data|] == data;
  }

  // ------------------------------------------------------------- the master

  function MasterStart(request: seq<bv8>, incoming: seq<bv8>): M.Master {
    M.Master(M.IDLE, M.MAKE_REQUEST, 0, 0, request, [], None, [], Line(TX_BUF_SIZE, incoming, []))
  }

  lemma MasterFails(m: M.Master)
    requires !M.Terminal(m.current) && m.next == M.ERROR
    ensures M.Run(m, true) == m.(current := M.ERROR)
  {
    M.RunTurn(m, true);
    M.RunTurn(m.(current := M.ERROR), true);
  }

  lemma MasterSends(request: seq<bv8>, incoming: seq<bv8>)
    ensures var r := M.Run(MasterStart(request, incoming), true);
            if |request| <= DATA_MAX_LENGTH && HEADER_LENGTH + |request| <= |incoming| then
              r == M.Run(M.Master(M.SEND_REQUEST, M.RECEIVE_HEADER, 0, 0, request, [], None, [],
                                  Line(HEADER_LENGTH + |request|, incoming[HEADER_LENGTH + |request|..],
                                       Frame(request))),
                         true)
            else r.current == M.ERROR
  {
    hide Crc, LowByte, M.Run;
    var m0 := MasterStart(request, incoming);
    M.RunTurn(m0, true);
    var m1 := M.Turn(m0, true);
    if |request| > DATA_MAX_LENGTH {
      MasterFails(m1);
    } else {
      M.RunTurn(m1, true);
      var m2 := M.Turn(m1, true);
      assert [] + Frame(request) == Frame(request);
      if |incoming| < HEADER_LENGTH + |request| {
        MasterFails(m2);
      }
    }
  }

  lemma MasterHeader(m: M.Master)
    requires m.next == M.RECEIVE_HEADER && HEADER_LENGTH <= m.line.capacity <= RX_BUF_SIZE
    ensures var r, b := M.Turn(m, true), m.line.incoming;
            if HEADER_LENGTH <= |b| && b[0] == SIGNATURE_0 && b[1] == SIGNATURE_1 then
              r == m.(current := M.RECEIVE_HEADER, length := b[2], crc := b[3], next := M.RECEIVE_DATA,
                      line := Line(m.line.capacity, b[HEADER_LENGTH..], m.line.sent + Zeros(HEADER_LENGTH)))
            else r.next == M.ERROR && r.current == M.RECEIVE_HEADER
  {
  }

  lemma MasterData(m: M.Master)
    requires m.next == M.RECEIVE_DATA && m.line.capacity <= RX_BUF_SIZE
    ensures var r, b, n := M.Turn(m, true), m.line.incoming, Value(m.length);
            if 1 <= n <= DATA_MAX_LENGTH && n <= m.line.capacity && n <= |b| && Crc(b[..n]) == m.crc then
              r == m.(current := M.RECEIVE_DATA, answer := CString(b[..n]), next := M.COMPLETE,
                      line := Line(m.line.capacity, b[n..], m.line.sent + Zeros(n)))
            else r.next == M.ERROR && r.current == M.RECEIVE_DATA
  {
    hide Crc, Value, CString;
  }

  /** A frame is a header and as many bytes as it says, with its checksum. */
  lemma CarriesParts(b: seq<bv8>, data: seq<bv8>)
    requires HEADER_LENGTH <= |b|
    ensures Carries(b, data) <==>
              var n := Value(b[2]);
              && b[0] == SIGNATURE_0 && b[1] == SIGNATURE_1
              && n <= DATA_MAX_LENGTH && n <= |b[HEADER_LENGTH..]|
              && data == b[HEADER_LENGTH..][..n] && Crc(data) == b[3]
  {
    hide Crc, Value;
    var n := Value(b[2]);
    if HEADER_LENGTH + n <= |b| {
      assert b[HEADER_LENGTH..][..n] == b[HEADER_LENGTH..HEADER_LENGTH + n];
    }
  }

  /** From the header on the master completes exactly if the line carries data it has room for. */
  lemma MasterReceives(m: M.Master, data: seq<bv8>)
    requires !M.Terminal(m.current) && m.next == M.RECEIVE_HEADER && HEADER_LENGTH <= m.line.capacity <= RX_BUF_SIZE
    requires data == Payload(m.line.incoming)
    ensures var r := M.Run(m, true);
            if Carries(m.line.incoming, data) && 1 <= |data| <= m.line.capacity then
              && r.current == M.COMPLETE && r.answer == CString(data)
              && r.line.sent == m.line.sent + Zeros(HEADER_LENGTH) + Zeros(|data|)
            else r.current == M.ERROR
  {
    hide Crc, Value, M.Run, M.Turn, CString, Carries;
    var b := m.line.incoming;
    M.RunTurn(m, true);
    MasterHeader(m);
    var m1 := M.Turn(m, true);
    if HEADER_LENGTH <= |b| {
      CarriesParts(b, data);
    } else {
      TooShort(b, data);
    }
    if m1.next == M.ERROR {
      MasterFails(m1);
    } else {
      M.RunTurn(m1, true);
      MasterData(m1);
      var m2 := M.Turn(m1, true);
      if m2.next == M.ERROR {
        MasterFails(m2);
      } else {
        M.RunTurn(m2, true);
        MasterCompletes(m2);
        M.RunTurn(M.Turn(m2, true), true);
      }
    }
  }

  lemma MasterCompletes(m: M.Master)
    requires m.next == M.COMPLETE
    ensures M.Turn(m, true) == m.(current := M.COMPLETE)
  {
  }

  lemma TooShort(b: seq<bv8>, data: seq<bv8>)
    requires |b| < HEADER_LENGTH
    ensures !Carries(b, data)
  {
  }

  /** The bytes behind the header, as many as it announces and the line delivers. */
  function Payload(b: seq<bv8>): seq<bv8> {
    if |b| < HEADER_LENGTH then []
    else b[HEADER_LENGTH..][..S.Min(Value(b[2]), |b| - HEADER_LENGTH)]
  }

  lemma PayloadCarried(b: seq<bv8>, data: seq<bv8>)
    requires Carries(b, data)
    ensures Payload(b) == data
  {
    hide Crc, Value;
    CarriesParts(b, data);
  }

  // -------------------------------------------------------------- the slave

  function SlaveStart(incoming: seq<bv8>): S.Slave {
    S.Slave(S.IDLE, S.RECEIVE_HEADER, 0, 0, [], None, Zeros(S.BUFFER_SIZE), Zeros(S.BUFFER_SIZE), incoming, [])
  }

  lemma SlaveFails(s: S.Slave, handler: S.Handler)
    requires !S.Terminal(s.current) && s.next == S.ERROR
    ensures S.Run(s, handler) == s.(current := S.ERROR)
  {
    S.RunTurn(s, handler);
    S.RunTurn(s.(current := S.ERROR), handler);
  }

  lemma SlaveHeader(s: S.Slave, handler: S.Handler)
    requires s.next == S.RECEIVE_HEADER
    ensures var r, b := S.Turn(s, handler), s.incoming;
            if HEADER_LENGTH <= |b| && b[0] == SIGNATURE_0 && b[1] == SIGNATURE_1 then
              r == s.(current := S.RECEIVE_HEADER, length := b[2], crc := b[3], next := S.RECEIVE_DATA,
                      incoming := b[HEADER_LENGTH..], sent := s.sent + Zeros(HEADER_LENGTH))
            else r.next == S.ERROR && r.current == S.RECEIVE_HEADER
  {
    assert Zeros(HEADER_LENGTH)[..HEADER_LENGTH] == Zeros(HEADER_LENGTH);
  }

  lemma SlaveData(s: S.Slave, handler: S.Handler)
    requires s.next == S.RECEIVE_DATA
    ensures var r, b, n := S.Turn(s, handler), s.incoming, Value(s.length);
            if n <= DATA_MAX_LENGTH && n <= |b| && Crc(b[..n]) == s.crc then
              r == s.(current := S.RECEIVE_DATA, next := S.HANDLE_REQUEST, rx := b[..n] + Zeros(S.BUFFER_SIZE - n),
                      incoming := b[n..], sent := s.sent + Zeros(n))
            else r.next == S.ERROR && r.current == S.RECEIVE_DATA
  {
    hide Crc, Value;
    var n := Value(s.length);
    assert Zeros(n)[..n] == Zeros(n);
  }

  /** The answer the handler gives to a received string, if it gives one. */
  function AnswerTo(data: seq<bv8>, handler: S.Handler): Option<seq<bv8>> {
    match handler
    case None => Some(CString(data))
    case Some(h) =>
      var reply := h(CString(data), []);
      if reply.failed then None else Some(reply.answer)
  }

  lemma SlaveHandles(s: S.Slave, handler: S.Handler, data: seq<bv8>)
    requires s.next == S.HANDLE_REQUEST && |data| <= S.BUFFER_SIZE && s.answer == []
    requires s.rx == data + Zeros(S.BUFFER_SIZE - |data|)
    ensures var r := S.Turn(s, handler);
            match AnswerTo(data, handler)
            case Some(a) => r == s.(current := S.HANDLE_REQUEST, answer := a, next := S.MAKE_ANSWER)
            case None => r.next == S.ERROR && r.current == S.HANDLE_REQUEST
  {
    hide CString;
    CStringPadded(data, S.BUFFER_SIZE - |data|);
  }

  lemma SlaveMakes(s: S.Slave, handler: S.Handler)
    requires s.next == S.MAKE_ANSWER
    ensures var r, n := S.Turn(s, handler), |s.answer|;
            if n <= DATA_MAX_LENGTH then
              r == s.(current := S.MAKE_ANSWER, next := S.SEND_ANSWER, length := LowByte(HEADER_LENGTH + n),
                      tx := Frame(s.answer) + Zeros(S.BUFFER_SIZE - HEADER_LENGTH - n))
            else r.next == S.ERROR && r.current == S.MAKE_ANSWER
  {
  }

  lemma SlaveSends(s: S.Slave, handler: S.Handler, answer: seq<bv8>)
    requires s.next == S.SEND_ANSWER && |answer| <= DATA_MAX_LENGTH
    requires s.length == LowByte(HEADER_LENGTH + |answer|)
    requires s.tx == Frame(answer) + Zeros(S.BUFFER_SIZE - HEADER_LENGTH - |answer|)
    ensures var r := S.Turn(s, handler);
            if HEADER_LENGTH + |answer| <= |s.incoming| then
              r.next == S.COMPLETE && r.current == S.SEND_ANSWER && r.sent == s.sent + Frame(answer)
            else r.next == S.ERROR && r.current == S.SEND_ANSWER
  {
    hide Crc, LowByte, Value;
    ByteHolds(HEADER_LENGTH + |answer|);
    var n := HEADER_LENGTH + |answer|;
    assert s.tx[..n] == Frame(answer);
    assert s.tx[..n][..n] == Frame(answer);
  }

  lemma SlaveCompletes(s: S.Slave, handler: S.Handler)
    requires s.next == S.COMPLETE && !S.Terminal(s.current)
    ensures S.Run(s, handler) == s.(current := S.COMPLETE)
  {
    S.RunTurn(s, handler);
    S.RunTurn(s.(current := S.COMPLETE), handler);
  }

  /** The slave completes exactly if the line carries a string whose answer fits a frame that the line clocks out. */
  predicate Served(incoming: seq<bv8>, handler: S.Handler) {
    var data := Payload(incoming);
    && Carries(incoming, data)
    && AnswerTo(data, handler).Some?
    && var n := |AnswerTo(data, handler).value|;
    && n <= DATA_MAX_LENGTH && 2 * HEADER_LENGTH + |data| + n <= |incoming|
  }

  lemma SlaveServes(incoming: seq<bv8>, handler: S.Handler)
    ensures var r := S.Run(SlaveStart(incoming), handler);
            if Served(incoming, handler) then
              var data := Payload(incoming);
              && r.current == S.COMPLETE
              && r.sent == Zeros(HEADER_LENGTH) + Zeros(|data|) + Frame(AnswerTo(data, handler).value)
            else r.current == S.ERROR
  {
    hide Crc, Value, S.Run, S.Turn, CString, Carries, AnswerTo, LowByte, Frame;
    var s0, data := SlaveStart(incoming), Payload(incoming);
    if HEADER_LENGTH <= |incoming| {
      CarriesParts(incoming, data);
    } else {
      TooShort(incoming, data);
    }
    S.RunTurn(s0, handler);
    SlaveHeader(s0, handler);
    var s1 := S.Turn(s0, handler);
    if s1.next == S.ERROR {
      SlaveFails(s1, handler);
      return;
    }
    S.RunTurn(s1, handler);
    SlaveData(s1, handler);
    var s2 := S.Turn(s1, handler);
    if s2.next == S.ERROR {
      SlaveFails(s2, handler);
      return;
    }
    SlaveAnswers(s2, data, handler);
  }

  lemma SlaveAnswers(s: S.Slave, data: seq<bv8>, handler: S.Handler)
    requires !S.Terminal(s.current) && s.next == S.HANDLE_REQUEST && |data| <= S.BUFFER_SIZE && s.answer == []
    requires s.rx == data + Zeros(S.BUFFER_SIZE - |data|)
    ensures var r, a := S.Run(s, handler), AnswerTo(data, handler);
            if a.Some? && |a.value| <= DATA_MAX_LENGTH && HEADER_LENGTH + |a.value| <= |s.incoming| then
              r.current == S.COMPLETE && r.sent == s.sent + Frame(a.value)
            else r.current == S.ERROR
  {
    hide Crc, Value, S.Run, S.Turn, CString, AnswerTo, LowByte, Frame;
    S.RunTurn(s, handler);
    SlaveHandles(s, handler, data);
    var s3 := S.Turn(s, handler);
    if s3.next == S.ERROR {
      SlaveFails(s3, handler);
      return;
    }
    S.RunTurn(s3, handler);
    SlaveMakes(s3, handler);
    var s4 := S.Turn(s3, handler);
    if s4.next == S.ERROR {
      SlaveFails(s4, handler);
      return;
    }
    S.RunTurn(s4, handler);
    SlaveSends(s4, handler, s3.answer);
    var s5 := S.Turn(s4, handler);
    if s5.next == S.ERROR {
      SlaveFails(s5, handler);
    } else {
      SlaveCompletes(s5, handler);
    }
  }

  // ------------------------------------------------------- altered data

  /** A change that the checksum is bound to notice: within eight consecutive bits, or of an odd number of bits. */
  ghost predicate Noticed(original: seq<bv8>, altered: seq<bv8>) {
    && |altered| == |original| && altered != original
    && ( || (exists k: nat :: InBurst(Difference(original, altered), k))
         || |Difference(original, altered)| % 2 == 1)
  }

  ghost predicate InBurst(d: Poly, k: nat) { forall e :: e in d ==> k <= e < k + 8 }

  lemma NoticedCrc(original: seq<bv8>, altered: seq<bv8>)
    requires Noticed(original, altered)
    ensures Crc(altered) != Crc(original)
  {
    hide Crc, Difference;
    if |Difference(original, altered)| % 2 == 1 {
      OddDetected(original, altered);
    } else {
      var k: nat :| InBurst(Difference(original, altered), k);
      BurstDetected(original, altered, k);
    }
  }

  /** What the line delivers when the data of a frame were altered and its header was not. */
  function AlteredFrame(original: seq<bv8>, altered: seq<bv8>, rest: seq<bv8>): seq<bv8>
    requires |original| <= DATA_MAX_LENGTH
  {
    Header(LowByte(|original|), Crc(original)) + altered + rest
  }

  lemma AlteredNotCarried(original: seq<bv8>, altered: seq<bv8>, rest: seq<bv8>)
    requires |altered| == |original| <= DATA_MAX_LENGTH && Crc(altered) != Crc(original)
    ensures var b := AlteredFrame(original, altered, rest);
            !Carries(b, Payload(b))
  {
    hide Crc, LowByte, Value;
    var b := AlteredFrame(original, altered, rest);
    ByteHolds(|original|);
    assert b[HEADER_LENGTH..][..|altered|] == altered;
    CarriesParts(b, Payload(b));
  }

  lemma SameLength(original: seq<bv8>, altered: seq<bv8>)
    requires Noticed(original, altered)
    ensures |altered| == |original|
  {
  }

  /** A slave that receives altered data with the original header ends in ERROR. */
  lemma SlaveRefusesAltered(original: seq<bv8>, altered: seq<bv8>, rest: seq<bv8>, handler: S.Handler)
    requires Noticed(original, altered) && |original| <= DATA_MAX_LENGTH
    ensures S.Run(SlaveStart(AlteredFrame(original, altered, rest)), handler).current == S.ERROR
  {
    hide S.Run, Carries, Payload, AlteredFrame, AnswerTo, Noticed, Crc;
    NoticedCrc(original, altered);
    SameLength(original, altered);
    AlteredNotCarried(original, altered, rest);
    SlaveServes(AlteredFrame(original, altered, rest), handler);
  }

  /** So does a master that receives it in place of the answer. */
  lemma MasterRefusesAltered(request: seq<bv8>, before: seq<bv8>, original: seq<bv8>, altered: seq<bv8>, rest: seq<bv8>)
    requires Noticed(original, altered) && |original| <= DATA_MAX_LENGTH
    requires |before| == HEADER_LENGTH + |request|
    ensures M.Run(MasterStart(request, before + AlteredFrame(original, altered, rest)), true).current == M.ERROR
  {
    hide M.Run, Carries, Payload, AlteredFrame, Noticed, Frame, Crc;
    var b := AlteredFrame(original, altered, rest);
    NoticedCrc(original, altered);
    SameLength(original, altered);
    AlteredNotCarried(original, altered, rest);
    MasterRuns(request, before + b);
    assert (before + b)[|before|..] == b;
  }

  /**
   Two flipped bits: the slave ends in ERROR if their distance is no multiple of 127, and otherwise
   runs exactly as if the altered data had been sent.
   */
  lemma SlaveWithPair(original: seq<bv8>, altered: seq<bv8>, i: nat, k: nat, rest: seq<bv8>, handler: S.Handler)
    requires |altered| == |original| <= DATA_MAX_LENGTH && k > 0 && Difference(original, altered) == {i, i + k}
    ensures var r := S.Run(SlaveStart(AlteredFrame(original, altered, rest)), handler);
            if k % 127 == 0 then r == S.Run(SlaveStart(Frame(altered) + rest), handler) else r.current == S.ERROR
  {
    hide S.Run, Carries, Payload, AnswerTo, Crc, LowByte, Difference;
    PairUnnoticed(original, altered, i, k);
    if k % 127 == 0 {
      assert AlteredFrame(original, altered, rest) == Frame(altered) + rest;
    } else {
      AlteredNotCarried(original, altered, rest);
      SlaveServes(AlteredFrame(original, altered, rest), handler);
    }
  }

  /** A slave without a callback completes on altered data under the original header, and echoes them. */
  lemma AlteredEchoed()
    ensures ORIGINAL != ALTERED
    ensures var r := S.Run(SlaveStart(AlteredFrame(ORIGINAL, ALTERED, Zeros(20))), None);
            r.current == S.COMPLETE && r.sent == Zeros(HEADER_LENGTH) + Zeros(16) + Frame(ALTERED)
  {
    hide S.Run, Crc, LowByte, Value, Difference, CString, Frame;
    PairOf127();
    SameChecksum();
    SlaveWithPair(ORIGINAL, ALTERED, 0, 127, Zeros(20), None);
    var b := Frame(ALTERED) + Zeros(20);
    FrameCarries(ALTERED, Zeros(20));
    FrameLength(ALTERED);
    PayloadCarried(b, ALTERED);
    CStringWhole(ALTERED);
    SlaveServes(b, None);
  }

  // --------------------------------------------------------- two parties

  /** The master completes exactly if the line carries data that fits the request's buffer behind the request. */
  predicate Answered(request: seq<bv8>, incoming: seq<bv8>) {
    var n := HEADER_LENGTH + |request|;
    && |request| <= DATA_MAX_LENGTH && n <= |incoming|
    && Carries(incoming[n..], Payload(incoming[n..]))
    && 1 <= |Payload(incoming[n..])| <= n
  }

  lemma MasterRuns(request: seq<bv8>, incoming: seq<bv8>)
    ensures var r := M.Run(MasterStart(request, incoming), true);
            if Answered(request, incoming) then
              var data := Payload(incoming[HEADER_LENGTH + |request|..]);
              && r.current == M.COMPLETE && r.answer == CString(data)
              && r.line.sent == Frame(request) + Zeros(HEADER_LENGTH) + Zeros(|data|)
            else r.current == M.ERROR
  {
    hide M.Run, Carries, Payload, Frame, CString;
    var n := HEADER_LENGTH + |request|;
    MasterSends(request, incoming);
    if |request| <= DATA_MAX_LENGTH && n <= |incoming| {
      MasterReceives(M.Master(M.SEND_REQUEST, M.RECEIVE_HEADER, 0, 0, request, [], None, [],
                              Line(n, incoming[n..], Frame(request))),
                     Payload(incoming[n..]));
    }
  }

  /** Each side receives what the other sends. */
  ghost predicate Coupled(request: seq<bv8>, handler: S.Handler, toSlave: seq<bv8>, toMaster: seq<bv8>) {
    && M.Run(MasterStart(request, toMaster), true).line.sent == toSlave
    && S.Run(SlaveStart(toSlave), handler).sent == toMaster
  }

  ghost predicate BothComplete(request: seq<bv8>, handler: S.Handler, toSlave: seq<bv8>, toMaster: seq<bv8>) {
    && M.Run(MasterStart(request, toMaster), true).current == M.COMPLETE
    && S.Run(SlaveStart(toSlave), handler).current == S.COMPLETE
  }

  /** The request fits a frame, and the handler's answer is not empty, fits a frame and the request's buffer. */
  predicate Exchangeable(request: seq<bv8>, handler: S.Handler) {
    && |request| <= DATA_MAX_LENGTH
    && AnswerTo(request, handler).Some?
    && 1 <= |AnswerTo(request, handler).value| <= DATA_MAX_LENGTH
    && |AnswerTo(request, handler).value| <= HEADER_LENGTH + |request|
  }

  function ToSlave(request: seq<bv8>, answer: seq<bv8>): seq<bv8>
    requires |request| <= DATA_MAX_LENGTH
  {
    Frame(request) + Zeros(HEADER_LENGTH) + Zeros(|answer|)
  }

  function ToMaster(request: seq<bv8>, answer: seq<bv8>): seq<bv8>
    requires |answer| <= DATA_MAX_LENGTH
  {
    Zeros(HEADER_LENGTH) + Zeros(|request|) + Frame(answer)
  }

  lemma SlaveSide(request: seq<bv8>, answer: seq<bv8>, handler: S.Handler)
    requires |request| <= DATA_MAX_LENGTH
    ensures var b := ToSlave(request, answer);
            && Payload(b) == request
            && (Served(b, handler) <==>
                  && AnswerTo(request, handler).Some?
                  && |AnswerTo(request, handler).value| <= DATA_MAX_LENGTH
                  && |AnswerTo(request, handler).value| <= |answer|)
  {
    hide Frame, Carries, Payload, AnswerTo;
    var b := ToSlave(request, answer);
    assert b == Frame(request) + (Zeros(HEADER_LENGTH) + Zeros(|answer|));
    FrameCarries(request, Zeros(HEADER_LENGTH) + Zeros(|answer|));
    PayloadCarried(b, request);
    FrameLength(request);
  }

  lemma FrameLength(data: seq<bv8>)
    requires |data| <= DATA_MAX_LENGTH
    ensures |Frame(data)| == HEADER_LENGTH + |data|
  {
  }

  lemma MasterSide(request: seq<bv8>, answer: seq<bv8>)
    requires |answer| <= DATA_MAX_LENGTH
    ensures var b := ToMaster(request, answer);
            && HEADER_LENGTH + |request| <= |b|
            && Payload(b[HEADER_LENGTH + |request|..]) == answer
            && (Answered(request, b) <==>
                  |request| <= DATA_MAX_LENGTH && 1 <= |answer| <= HEADER_LENGTH + |request|)
  {
    hide Frame, Carries, Payload;
    var b := ToMaster(request, answer);
    assert b[HEADER_LENGTH + |request|..] == Frame(answer) + [];
    FrameCarries(answer, []);
    PayloadCarried(Frame(answer) + [], answer);
  }

  /** An exchangeable request: both machines complete and the master has the handler's answer up to its first zero. */
  lemma ExchangeSucceeds(request: seq<bv8>, handler: S.Handler)
    requires Exchangeable(request, handler)
    ensures var answer := AnswerTo(request, handler).value;
            var toSlave, toMaster := ToSlave(request, answer), ToMaster(request, answer);
            && Coupled(request, handler, toSlave, toMaster)
            && BothComplete(request, handler, toSlave, toMaster)
            && M.Run(MasterStart(request, toMaster), true).answer == CString(answer)
  {
    hide M.Run, S.Run, Frame, Payload, AnswerTo, CString, Answered, Served;
    var answer := AnswerTo(request, handler).value;
    SlaveSide(request, answer, handler);
    MasterSide(request, answer);
    MasterRuns(request, ToMaster(request, answer));
    SlaveServes(ToSlave(request, answer), handler);
  }

  /** Nothing else completes: every coupled run in which both complete is that exchange. */
  lemma ExchangeOnlySo(request: seq<bv8>, handler: S.Handler, toSlave: seq<bv8>, toMaster: seq<bv8>)
    requires Coupled(request, handler, toSlave, toMaster) && BothComplete(request, handler, toSlave, toMaster)
    ensures Exchangeable(request, handler)
    ensures var answer := AnswerTo(request, handler).value;
            && toSlave == ToSlave(request, answer) && toMaster == ToMaster(request, answer)
            && M.Run(MasterStart(request, toMaster), true).answer == CString(answer)
  {
    hide M.Run, S.Run, Frame, Payload, AnswerTo, CString, Carries;
    MasterRuns(request, toMaster);
    SlaveServes(toSlave, handler);
    var data := Payload(toMaster[HEADER_LENGTH + |request|..]);
    SlaveSide(request, data, handler);
    var answer := AnswerTo(request, handler).value;
    MasterSide(request, answer);
  }

  // ------------------------------------------- every exchange that is not cut short

  /** A transfer of the master that the line cuts short ends the run with that error. */
  lemma WriteCutShort(request: seq<bv8>, incoming: seq<bv8>)
    requires |request| <= DATA_MAX_LENGTH && |incoming| < HEADER_LENGTH + |request|
    ensures M.Run(MasterStart(request, incoming), true).error == Some(InputOutput)
  {
    hide Crc, LowByte, M.Run;
    var m0 := MasterStart(request, incoming);
    M.RunTurn(m0, true);
    var m1 := M.Turn(m0, true);
    M.RunTurn(m1, true);
    MasterFails(M.Turn(m1, true));
  }

  lemma HeaderCutShort(m: M.Master)
    requires !M.Terminal(m.current) && m.next == M.RECEIVE_HEADER && HEADER_LENGTH <= m.line.capacity <= RX_BUF_SIZE
    requires |m.line.incoming| < HEADER_LENGTH
    ensures M.Run(m, true).error == Some(InputOutput)
  {
    hide M.Run;
    M.RunTurn(m, true);
    MasterFails(M.Turn(m, true));
  }

  /** The header is read; what it says decides about the rest. */
  lemma HeaderRead(m: M.Master)
    requires m.next == M.RECEIVE_HEADER && HEADER_LENGTH <= m.line.capacity <= RX_BUF_SIZE
    requires HEADER_LENGTH <= |m.line.incoming|
    ensures var r, b := M.Turn(m, true), m.line.incoming;
            && r.current == M.RECEIVE_HEADER
            && r.line == Line(m.line.capacity, b[HEADER_LENGTH..], m.line.sent + Zeros(HEADER_LENGTH))
            && (if b[0] == SIGNATURE_0 && b[1] == SIGNATURE_1 then r.next == M.RECEIVE_DATA && r.length == b[2]
                else r.next == M.ERROR)
  {
  }

  /** The data is read whole or not at all, and not at all if the line is too short for it. */
  lemma DataRead(m: M.Master) returns (k: nat)
    requires m.next == M.RECEIVE_DATA && m.line.capacity <= RX_BUF_SIZE
    ensures var r, n := M.Turn(m, true), Value(m.length);
            && r.current == M.RECEIVE_DATA && (r.next == M.ERROR || r.next == M.COMPLETE)
            && r.line.sent == m.line.sent + Zeros(k)
            && (1 <= n <= DATA_MAX_LENGTH && n <= m.line.capacity && |m.line.incoming| < n ==>
                  r.next == M.ERROR && r.error == Some(InputOutput))
  {
    hide Crc, Value, CString;
    var n := Value(m.length);
    if 1 <= n <= DATA_MAX_LENGTH && n <= m.line.capacity && n <= |m.line.incoming| {
      k := n;
    } else {
      k := 0;
      assert m.line.sent + Zeros(0) == m.line.sent;
    }
  }

  /** A header that announces data for which there is room. */
  predicate Announces(b: seq<bv8>, capacity: nat)
    requires HEADER_LENGTH <= |b|
  {
    b[0] == SIGNATURE_0 && b[1] == SIGNATURE_1 && 1 <= Value(b[2]) <= DATA_MAX_LENGTH && Value(b[2]) <= capacity
  }

  /** From the header on the master sends zeros only, and an announced answer that fits is there whole. */
  lemma MasterFeeds(m: M.Master) returns (k: nat)
    requires !M.Terminal(m.current) && m.next == M.RECEIVE_HEADER && HEADER_LENGTH <= m.line.capacity <= RX_BUF_SIZE
    requires M.Run(m, true).error != Some(InputOutput)
    ensures var b := m.line.incoming;
            && HEADER_LENGTH <= |b|
            && M.Run(m, true).line.sent == m.line.sent + Zeros(HEADER_LENGTH) + Zeros(k)
            && (Announces(b, m.line.capacity) ==> HEADER_LENGTH + Value(b[2]) <= |b|)
  {
    hide Crc, Value, M.Run, M.Turn, CString;
    if |m.line.incoming| < HEADER_LENGTH {
      HeaderCutShort(m);
    }
    M.RunTurn(m, true);
    HeaderRead(m);
    var m1 := M.Turn(m, true);
    if m1.next == M.ERROR {
      MasterFails(m1);
      k := 0;
      assert m1.line.sent + Zeros(0) == m1.line.sent;
    } else {
      M.RunTurn(m1, true);
      k := DataRead(m1);
      var m2 := M.Turn(m1, true);
      if m2.next == M.ERROR {
        MasterFails(m2);
      } else {
        M.RunTurn(m2, true);
        MasterCompletes(m2);
        M.RunTurn(M.Turn(m2, true), true);
      }
    }
  }

  /** The same for a whole run. */
  lemma MasterNotCut(request: seq<bv8>, incoming: seq<bv8>) returns (k: nat)
    requires |request| <= DATA_MAX_LENGTH
    requires M.Run(MasterStart(request, incoming), true).error != Some(InputOutput)
    ensures var n := HEADER_LENGTH + |request|;
            && n + HEADER_LENGTH <= |incoming|
            && M.Run(MasterStart(request, incoming), true).line.sent == Frame(request) + Zeros(HEADER_LENGTH) + Zeros(k)
            && (Announces(incoming[n..], n) ==> HEADER_LENGTH + Value(incoming[n + 2]) <= |incoming[n..]|)
  {
    hide Value, M.Run, M.Turn, Frame;
    var n := HEADER_LENGTH + |request|;
    if |incoming| < n {
      WriteCutShort(request, incoming);
    }
    MasterSends(request, incoming);
    k := MasterFeeds(M.Master(M.SEND_REQUEST, M.RECEIVE_HEADER, 0, 0, request, [], None, [],
                              Line(n, incoming[n..], Frame(request))));
  }

  /** The slave sends as much of the answer's frame as the master clocks out. */
  lemma SlavePartlySends(s: S.Slave, handler: S.Handler, answer: seq<bv8>)
    requires s.next == S.SEND_ANSWER && |answer| <= DATA_MAX_LENGTH
    requires s.length == LowByte(HEADER_LENGTH + |answer|)
    requires s.tx == Frame(answer) + Zeros(S.BUFFER_SIZE - HEADER_LENGTH - |answer|)
    ensures var r, k := S.Turn(s, handler), S.Min(HEADER_LENGTH + |answer|, |s.incoming|);
            && (r.next == S.COMPLETE || r.next == S.ERROR) && r.current == S.SEND_ANSWER
            && k <= |Frame(answer)| && r.sent == s.sent + Frame(answer)[..k]
  {
    hide Crc, LowByte, Value;
    ByteHolds(HEADER_LENGTH + |answer|);
    var n := HEADER_LENGTH + |answer|;
    assert s.tx[..n] == Frame(answer);
  }

  lemma SlaveSendsAnswer(s: S.Slave, data: seq<bv8>, handler: S.Handler)
    requires !S.Terminal(s.current) && s.next == S.HANDLE_REQUEST && |data| <= S.BUFFER_SIZE && s.answer == []
    requires s.rx == data + Zeros(S.BUFFER_SIZE - |data|)
    requires AnswerTo(data, handler).Some? && |AnswerTo(data, handler).value| <= DATA_MAX_LENGTH
    ensures var a := AnswerTo(data, handler).value;
            var k := S.Min(HEADER_LENGTH + |a|, |s.incoming|);
            k <= |Frame(a)| && S.Run(s, handler).sent == s.sent + Frame(a)[..k]
  {
    hide Crc, Value, S.Run, S.Turn, CString, AnswerTo, LowByte, Frame;
    S.RunTurn(s, handler);
    SlaveHandles(s, handler, data);
    var s3 := S.Turn(s, handler);
    S.RunTurn(s3, handler);
    SlaveMakes(s3, handler);
    var s4 := S.Turn(s3, handler);
    S.RunTurn(s4, handler);
    SlavePartlySends(s4, handler, s3.answer);
    var s5 := S.Turn(s4, handler);
    if s5.next == S.ERROR {
      SlaveFails(s5, handler);
    } else {
      SlaveCompletes(s5, handler);
    }
  }

  /** What the slave sends for a request that is followed by zeros. */
  lemma SlaveFed(request: seq<bv8>, handler: S.Handler, k: nat)
    requires |request| <= DATA_MAX_LENGTH
    requires AnswerTo(request, handler).Some? && |AnswerTo(request, handler).value| <= DATA_MAX_LENGTH
    ensures var a := AnswerTo(request, handler).value;
            var n := HEADER_LENGTH + S.Min(|a|, k);
            && n <= |Frame(a)|
            && S.Run(SlaveStart(Frame(request) + Zeros(HEADER_LENGTH) + Zeros(k)), handler).sent ==
               Zeros(HEADER_LENGTH) + Zeros(|request|) + Frame(a)[..n]
  {
    hide Crc, Value, S.Run, S.Turn, CString, Carries, AnswerTo, LowByte, Frame;
    var rest := Zeros(HEADER_LENGTH) + Zeros(k);
    var b := Frame(request) + Zeros(HEADER_LENGTH) + Zeros(k);
    assert b == Frame(request) + rest;
    FrameCarries(request, rest);
    FrameLength(request);
    CarriesParts(b, request);
    var s0 := SlaveStart(b);
    S.RunTurn(s0, handler);
    SlaveHeader(s0, handler);
    var s1 := S.Turn(s0, handler);
    S.RunTurn(s1, handler);
    SlaveData(s1, handler);
    var s2 := S.Turn(s1, handler);
    SlaveSendsAnswer(s2, request, handler);
  }

  /** An answer that is there whole behind the request is the whole of what the slave sends. */
  lemma WholeAnswer(request: seq<bv8>, answer: seq<bv8>, n: nat)
    requires 1 <= |answer| <= DATA_MAX_LENGTH && HEADER_LENGTH <= n <= |Frame(answer)|
    ensures var toMaster := Zeros(HEADER_LENGTH) + Zeros(|request|) + Frame(answer)[..n];
            var b := toMaster[HEADER_LENGTH + |request|..];
            && b[0] == SIGNATURE_0 && b[1] == SIGNATURE_1 && Value(b[2]) == |answer|
            && (HEADER_LENGTH + |answer| <= |b| ==> toMaster == ToMaster(request, answer))
  {
    hide Crc, LowByte, Value;
    ByteHolds(|answer|);
    var toMaster := Zeros(HEADER_LENGTH) + Zeros(|request|) + Frame(answer)[..n];
    assert toMaster[HEADER_LENGTH + |request|..] == Frame(answer)[..n];
    if n == |Frame(answer)| {
      assert Frame(answer)[..n] == Frame(answer);
    }
  }

  /**
   Every exchange, whatever the two sides sent each other: both machines complete if and only if the
   request is exchangeable and the line cut no transfer of the master short.
   */
  lemma ExchangeAlwaysSucceeds(request: seq<bv8>, handler: S.Handler, toSlave: seq<bv8>, toMaster: seq<bv8>)
    requires Coupled(request, handler, toSlave, toMaster)
    ensures BothComplete(request, handler, toSlave, toMaster)
            <==> Exchangeable(request, handler)
                 && M.Run(MasterStart(request, toMaster), true).error != Some(InputOutput)
  {
    hide M.Run, S.Run, Frame, AnswerTo, Value;
    if BothComplete(request, handler, toSlave, toMaster) {
      ExchangeOnlySo(request, handler, toSlave, toMaster);
      M.RunEnds(MasterStart(request, toMaster), true);
    } else if Exchangeable(request, handler)
              && M.Run(MasterStart(request, toMaster), true).error != Some(InputOutput) {
      var answer := AnswerTo(request, handler).value;
      var k := MasterNotCut(request, toMaster);
      SlaveFed(request, handler, k);
      WholeAnswer(request, answer, HEADER_LENGTH + S.Min(|answer|, k));
      ExchangeSucceeds(request, handler);
    }
  }

  /** Without that: a line on which nothing is ever clocked is coupled too, and both machines end in ERROR. */
  lemma DeadLine(request: seq<bv8>, handler: S.Handler)
    requires |request| <= DATA_MAX_LENGTH
    ensures Coupled(request, handler, [], [])
    ensures M.Run(MasterStart(request, []), true).error == Some(InputOutput)
    ensures !BothComplete(request, handler, [], [])
  {
    hide Crc, LowByte, M.Run, S.Run;
    var m0 := MasterStart(request, []);
    WriteCutShort(request, []);
    M.RunTurn(m0, true);
    var m1 := M.Turn(m0, true);
    M.RunTurn(m1, true);
    MasterFails(M.Turn(m1, true));
    var s0 := SlaveStart([]);
    S.RunTurn(s0, handler);
    SlaveFails(S.Turn(s0, handler), handler);
  }

  /**
   The master returns exactly the handler's answer if and only if no byte of it is zero;
   with a null callback and a request without zero bytes that is the request.
   */
  lemma MasterReturnsAnswer(request: seq<bv8>, handler: S.Handler, toSlave: seq<bv8>, toMaster: seq<bv8>)
    requires Coupled(request, handler, toSlave, toMaster) && BothComplete(request, handler, toSlave, toMaster)
    ensures AnswerTo(request, handler).Some?
    ensures var returned := M.Run(MasterStart(request, toMaster), true).answer;
            var answer := AnswerTo(request, handler).value;
            && (returned == answer <==> 0 !in answer)
            && (handler.None? && 0 !in request ==> returned == request)
  {
    hide M.Run, S.Run, Coupled, BothComplete, ToSlave, ToMaster, CString;
    ExchangeOnlySo(request, handler, toSlave, toMaster);
    CStringWhole(AnswerTo(request, handler).value);
    CStringWhole(request);
  }
}
