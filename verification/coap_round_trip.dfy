/**
 Which messages survive the wire, and which byte strings are the encoding of what
 they decode to. Both questions are answered exactly: the code reads a two-byte
 extension with the low byte first on a little-endian host but always writes it
 with the high byte first, so neither direction is unconditional.
 */
module CoapRoundTrip {
  import opened Bytes
  import opened CoapWire

  /** `s` is the three pieces one after another. */
  predicate IsCut(s: seq<byte>, a: seq<byte>, b: seq<byte>, c: seq<byte>) {
    && |s| == |a| + |b| + |c|
    && s[..|a|] == a && s[|a|..|a| + |b|] == b && s[|a| + |b|..] == c
  }

  lemma Cut(a: seq<byte>, b: seq<byte>, c: seq<byte>)
    ensures IsCut(a + b + c, a, b, c)
  {
  }

  // ------------------------------------------------ message to bytes and back

  /** A delta or a length that is read back as it was written. */
  predicate FieldSurvives(v: nat, littleEndian: bool) {
    v < 269 || (v <= 0xFFFF && (littleEndian ==> (v - 269) / 256 == (v - 269) % 256))
  }

  predicate OptionSurvives(previous: uint16, o: Opt, littleEndian: bool) {
    && previous <= o.number
    && FieldSurvives(o.number - previous, littleEndian)
    && FieldSurvives(|o.value|, littleEndian)
  }

  /** The options are sorted by number and each delta and length survives. */
  predicate OptionsSurvive(previous: uint16, options: seq<Opt>, littleEndian: bool)
    decreases |options|
  {
    options != [] ==>
      && OptionSurvives(previous, options[0], littleEndian)
      && OptionsSurvive(options[0].number, options[1..], littleEndian)
  }

  predicate Survives(m: Message, littleEndian: bool) {
    && Version(m.header) == COAP_VERSION
    && OptionsSurvive(0, m.options, littleEndian)
    && m.payload != []
  }

  /** The value `ReadField` returns for a field written from `v`. */
  function Seen(v: nat, littleEndian: bool): uint16 {
    if Nibble(v) < 13 then Nibble(v)
    else if Nibble(v) == 13 then v
    else (ReadWord((v - 269) / 256, (v - 269) % 256, littleEndian) + 269) % 0x1_0000
  }

  lemma SeenExactly(v: nat, littleEndian: bool)
    ensures Seen(v, littleEndian) == v <==> FieldSurvives(v, littleEndian)
  {
    if Nibble(v) == 14 {
      var high, low := (v - 269) / 256, (v - 269) % 256;
      assert v == 256 * high + low + 269;
      WrapsOnce(ReadWord(high, low, littleEndian) + 269);
    }
  }

  lemma WrapsOnce(x: nat)
    requires x < 0x2_0000
    ensures x % 0x1_0000 == if x < 0x1_0000 then x else x - 0x1_0000
  {
  }

  /** The number read for a written option is the one written exactly if its delta survives. */
  lemma NumberSeen(previous: uint16, number: uint16, littleEndian: bool)
    ensures (previous + Seen(Delta(previous, number), littleEndian)) % 0x1_0000 == number
            <==> previous <= number && FieldSurvives(number - previous, littleEndian)
  {
    SeenExactly(Delta(previous, number), littleEndian);
  }

  lemma NibblesApart(d: nat, l: nat)
    ensures Nibble(d) <= 14 && Nibble(l) <= 14
    ensures (16 * Nibble(d) + Nibble(l)) / 16 == Nibble(d)
    ensures (16 * Nibble(d) + Nibble(l)) % 16 == Nibble(l)
  {
  }

  lemma ReadsField(v: nat, s: seq<byte>, k: nat, littleEndian: bool)
    requires k + 1 <= |s| && Extension(v) <= s[k + 1..]
    ensures ReadField(Nibble(v), s, k, littleEndian) == Some(Field(Seen(v, littleEndian), |Extension(v)|))
  {
    var e := Extension(v);
    forall i | 0 <= i < |e| ensures s[k + 1 + i] == e[i] {
      assert s[k + 1..][i] == e[i];
    }
  }

  /** Reading the head of a written option: the value's bounds follow the lengths as seen. */
  lemma ReadsHead(d: nat, l: nat, s: seq<byte>, littleEndian: bool)
    requires s != [] && s[0] == 16 * Nibble(d) + Nibble(l)
    requires Extension(d) + Extension(l) <= s[1..]
    ensures s[0] != PAYLOAD_MARKER
    ensures var start := 1 + |Extension(d)| + |Extension(l)|;
            var length := Seen(l, littleEndian);
            ReadOption(s, littleEndian) ==
              if start + length > |s| then Err(OptionLength)
              else Ok(OptionAt(Seen(d, littleEndian), start, length))
  {
    hide Nibble, Extension, Seen, ReadField;
    var e, f := Extension(d), Extension(l);
    NibblesApart(d, l);
    assert (e + f)[..|e|] == e && (e + f)[|e|..] == f;
    assert s[1..][..|e|] == e;
    ReadsField(d, s, 0, littleEndian);
    assert s[|e| + 1..][..|f|] == s[1..][|e|..|e| + |f|] == f;
    ReadsField(l, s, |e|, littleEndian);
  }

  /** One step of the option loop. */
  lemma TakesOption(s: seq<byte>, number: uint16, littleEndian: bool)
    requires s != [] && s[0] != PAYLOAD_MARKER
    ensures DecodeOptions(s, number, littleEndian) ==
              match ReadOption(s, littleEndian)
              case Err(e) => OptionsRead([], s, Some(e))
              case Ok(at) =>
                var next := (number + at.delta) % 0x1_0000;
                var tail := DecodeOptions(s[at.start + at.length..], next, littleEndian);
                OptionsRead([Opt(next, s[at.start..at.start + at.length])] + tail.options, tail.rest, tail.error)
  {
  }

  lemma HeadShape(previous: uint16, o: Opt)
    ensures var head := OptionHead(previous, o);
            var d, l := Delta(previous, o.number), |o.value|;
            && head[0] == 16 * Nibble(d) + Nibble(l)
            && head[1..] == Extension(d) + Extension(l)
            && |head| == 1 + |Extension(d)| + |Extension(l)|
  {
  }

  lemma ReadsOption(previous: uint16, o: Opt, tail: seq<byte>, s: seq<byte>, littleEndian: bool)
    requires IsCut(s, OptionHead(previous, o), o.value, tail)
    ensures s != [] && s[0] != PAYLOAD_MARKER
    ensures var start := |OptionHead(previous, o)|;
            var length := Seen(|o.value|, littleEndian);
            ReadOption(s, littleEndian) ==
              if start + length > |s| then Err(OptionLength)
              else Ok(OptionAt(Seen(Delta(previous, o.number), littleEndian), start, length))
  {
    hide Nibble, Extension, Seen, ReadField, ReadOption, OptionHead, Delta;
    var head := OptionHead(previous, o);
    HeadShape(previous, o);
    assert s[0] == s[..|head|][0];
    assert s[1..][..|head| - 1] == s[..|head|][1..];
    ReadsHead(Delta(previous, o.number), |o.value|, s, littleEndian);
  }

  /** One written option is read back as itself exactly if it survives. */
  lemma DecodesOption(previous: uint16, o: Opt, tail: seq<byte>, s: seq<byte>, littleEndian: bool)
    requires IsCut(s, OptionHead(previous, o), o.value, tail)
    ensures var r := DecodeOptions(s, previous, littleEndian);
            if OptionSurvives(previous, o, littleEndian) then
              var rest := DecodeOptions(tail, o.number, littleEndian);
              r == OptionsRead([o] + rest.options, rest.rest, rest.error)
            else
              r.error.Some? || (r.options != [] && r.options[0] != o)
  {
    hide Seen, FieldSurvives, ReadOption, DecodeOptions, OptionHead, Delta;
    ReadsOption(previous, o, tail, s, littleEndian);
    NumberSeen(previous, o.number, littleEndian);
    SeenExactly(|o.value|, littleEndian);
    TakesOption(s, previous, littleEndian);
  }

  lemma EncodesFirst(previous: uint16, options: seq<Opt>, tail: seq<byte>)
    requires options != []
    ensures var o := options[0];
            IsCut(EncodeOptions(previous, options) + tail, OptionHead(previous, o), o.value,
                  EncodeOptions(o.number, options[1..]) + tail)
  {
    hide OptionHead, IsCut;
    var o := options[0];
    var after := EncodeOptions(o.number, options[1..]) + tail;
    assert EncodeOptions(previous, options) + tail == OptionHead(previous, o) + o.value + after;
    Cut(OptionHead(previous, o), o.value, after);
  }

  lemma EncodesNone(previous: uint16, tail: seq<byte>)
    ensures EncodeOptions(previous, []) + tail == tail
  {
  }

  lemma StopsAt(s: seq<byte>, number: uint16, littleEndian: bool)
    requires s == [] || s[0] == PAYLOAD_MARKER
    ensures DecodeOptions(s, number, littleEndian) == OptionsRead([], s, None)
  {
  }

  lemma {:induction false} DecodesOptions(previous: uint16, options: seq<Opt>, tail: seq<byte>, littleEndian: bool)
    requires tail == [] || tail[0] == PAYLOAD_MARKER
    ensures var r := DecodeOptions(EncodeOptions(previous, options) + tail, previous, littleEndian);
            if OptionsSurvive(previous, options, littleEndian) then r == OptionsRead(options, tail, None)
            else r.error.Some? || r.options != options
    decreases |options|
  {
    hide OptionHead, OptionSurvives, ReadOption, IsCut, DecodeOptions, EncodeOptions;
    if options == [] {
      EncodesNone(previous, tail);
      StopsAt(tail, previous, littleEndian);
    } else {
      var o, rest := options[0], options[1..];
      var after := EncodeOptions(o.number, rest) + tail;
      EncodesFirst(previous, options, tail);
      DecodesOption(previous, o, after, EncodeOptions(previous, options) + tail, littleEndian);
      DecodesOptions(o.number, rest, tail, littleEndian);
      assert options == [o] + rest;
    }
  }

  function Prefix(m: Message, littleEndian: bool): seq<byte> {
    [m.header, m.code] + EncodeIdentity(m.identity, littleEndian) + m.token
  }

  /** Parsing the header and the token of what `Encode` wrote, whatever follows them. */
  lemma ParsesPrefix(s: Snapshot, m: Message, body: seq<byte>, littleEndian: bool)
    requires Shaped(s) && Sendable(m) && Version(m.header) == COAP_VERSION
    ensures var b := Prefix(m, littleEndian) + body;
            var n := |m.token|;
            b[HEADER_SIZE + n..] == body &&
            ParseHeader(s, b, littleEndian) ==
              Step(s.(header := m.header, code := m.code, identity := m.identity), None) &&
            ParseToken(ParseHeader(s, b, littleEndian).state, b) ==
              Step(s.(header := m.header, code := m.code, identity := m.identity,
                      token := m.token + s.token[n..]), None)
  {
    var b := Prefix(m, littleEndian) + body;
    assert b[HEADER_SIZE..HEADER_SIZE + |m.token|] == m.token;
  }

  /** Parsing what `Encode` wrote, into a packet in any state. */
  lemma ParsesMessage(s: Snapshot, m: Message, littleEndian: bool)
    requires Shaped(s) && Sendable(m)
    ensures var b := Encode(m, littleEndian);
            var r := Parse(s, b, littleEndian);
            if Survives(m, littleEndian) then
              r == Step(Snapshot(m.header, m.code, m.identity, m.token + s.token[|m.token|..], m.options,
                                 |b| - |m.payload|, s.payload + m.payload), None)
            else r.error.Some? || r.state.options != m.options
  {
    hide OptionHead, OptionSurvives, ReadOption, OptionsSurvive, EncodeOptions, DecodeOptions,
      EncodeIdentity, ParseHeader, ParseToken;
    var body := EncodeOptions(0, m.options) + EncodePayload(m.payload);
    var b := Encode(m, littleEndian);
    assert b == Prefix(m, littleEndian) + body;
    if Version(m.header) == COAP_VERSION {
      ParsesPrefix(s, m, body, littleEndian);
      var s2 := ParseToken(ParseHeader(s, b, littleEndian).state, b).state;
      assert b[|b| - |m.payload|..] == m.payload;
      ParsesBody(s2, m, b, littleEndian);
    } else {
      assert b[0] == m.header;
      RefusesVersion(s, b, littleEndian);
    }
  }

  lemma ParsesBody(s: Snapshot, m: Message, b: seq<byte>, littleEndian: bool)
    requires Shaped(s) && HEADER_SIZE + TokenLength(s.header) <= |b|
    requires b[HEADER_SIZE + TokenLength(s.header)..] == EncodeOptions(0, m.options) + EncodePayload(m.payload)
    requires |m.payload| <= |b| && b[|b| - |m.payload|..] == m.payload
    ensures var r := ParseOptions(s, b, littleEndian);
            if OptionsSurvive(0, m.options, littleEndian) then
              && r.error == None
              && ParsePayload(r.state, b) ==
                 if m.payload == [] then Step(r.state, Some(InvalidArgument))
                 else Step(s.(options := m.options, payloadOffset := |b| - |m.payload|,
                              payload := s.payload + m.payload), None)
            else r.error.Some? || r.state.options != m.options
  {
    hide OptionsSurvive, EncodeOptions, DecodeOptions;
    DecodesOptions(0, m.options, EncodePayload(m.payload), littleEndian);
  }

  lemma RefusesVersion(s: Snapshot, b: seq<byte>, littleEndian: bool)
    requires Shaped(s) && b != [] && Version(b[0]) != COAP_VERSION
    ensures ParseHeader(s, b, littleEndian).error.Some?
  {
  }

  lemma TokenOfMessage(token: seq<byte>, padding: seq<byte>)
    requires |token| <= |padding|
    ensures (token + padding[|token|..])[..|token|] == token
  {
  }

  /** A fresh packet holds the message again after parsing what `Encode` wrote exactly if it survives. */
  lemma RoundTrip(m: Message, littleEndian: bool)
    requires Sendable(m)
    ensures Decode(Encode(m, littleEndian), littleEndian) == Ok(m) <==> Survives(m, littleEndian)
  {
    hide Survives, Parse, Encode;
    ParsesMessage(Fresh, m, littleEndian);
    TokenOfMessage(m.token, Fresh.token);
    assert Fresh.payload + m.payload == m.payload;
  }

  /** The message as a host of byte order `to` takes it from one of byte order `from`: the identity's bytes swap. */
  function Received(m: Message, from: bool, to: bool): Message {
    if from == to then m else m.(identity := Word(m.identity % 256, m.identity / 256))
  }

  lemma SwappedIdentity(identity: uint16)
    ensures var swapped := Word(identity % 256, identity / 256);
            && swapped / 256 == identity % 256 && swapped % 256 == identity / 256
            && (swapped == identity <==> identity / 256 == identity % 256)
  {
    var high, low := identity / 256, identity % 256;
    var swapped := Word(low, high);
    assert swapped / 256 == low && swapped % 256 == high;
  }

  lemma SentAsReceived(m: Message, from: bool, to: bool)
    ensures Encode(m, from) == Encode(Received(m, from, to), to)
  {
    hide EncodeOptions, EncodePayload;
    SwappedIdentity(m.identity);
  }

  /**
   Between hosts of any two byte orders a message arrives but for its identity exactly if it survives
   the receiver's byte order, and as it was exactly if, besides, the orders are the same or the two
   bytes of the identity are.
   */
  lemma BetweenHosts(m: Message, from: bool, to: bool)
    requires Sendable(m)
    ensures Decode(Encode(m, from), to) == Ok(Received(m, from, to)) <==> Survives(m, to)
    ensures Decode(Encode(m, from), to) == Ok(m)
            <==> Survives(m, to) && (from == to || m.identity / 256 == m.identity % 256)
  {
    var received := Received(m, from, to);
    SentAsReceived(m, from, to);
    SwappedIdentity(m.identity);
    assert Survives(received, to) <==> Survives(m, to);
    RoundTrip(received, to);
    if !Survives(received, to) {
      LostOptions(received, to);
    }
    hide Survives, Decode, Encode;
  }

  /** A message that does not survive is refused, or arrives with other options. */
  lemma LostOptions(m: Message, littleEndian: bool)
    requires Sendable(m) && !Survives(m, littleEndian)
    ensures var r := Decode(Encode(m, littleEndian), littleEndian);
            r.Err? || r.value.options != m.options
  {
    hide Survives, Parse, Encode;
    ParsesMessage(Fresh, m, littleEndian);
  }

  /** A message without a payload is refused, however well its options are written. */
  lemma PayloadlessRefused(m: Message, littleEndian: bool)
    requires Sendable(m) && Version(m.header) == COAP_VERSION && OptionsSurvive(0, m.options, littleEndian)
    requires m.payload == []
    ensures Decode(Encode(m, littleEndian), littleEndian) == Err(InvalidArgument)
  {
    hide OptionsSurvive, EncodeOptions, DecodeOptions, EncodeIdentity,
      ParseHeader, ParseToken, ParseOptions, ParsePayload;
    var body := EncodeOptions(0, m.options) + EncodePayload(m.payload);
    var b := Encode(m, littleEndian);
    assert b == Prefix(m, littleEndian) + body;
    ParsesPrefix(Fresh, m, body, littleEndian);
    assert b[|b| - |m.payload|..] == m.payload;
    ParsesBody(ParseToken(ParseHeader(Fresh, b, littleEndian).state, b).state, m, b, littleEndian);
  }

  /** One option value of 270 bytes is enough for a little-endian host to misread its own message. */
  lemma LongOptionMisread(value: seq<byte>)
    requires |value| == 270
    ensures var m := Message(0x40, 1, 0, [], [Opt(11, value)], [1]);
            Decode(Encode(m, true), true) != Ok(m) && Decode(Encode(m, false), false) == Ok(m)
  {
    var m := Message(0x40, 1, 0, [], [Opt(11, value)], [1]);
    assert m.options[1..] == [];
    assert OptionsSurvive(11, [], false);
    assert OptionSurvives(0, m.options[0], false) && !OptionSurvives(0, m.options[0], true);
    hide OptionSurvives, Decode, Encode, FieldSurvives;
    RoundTrip(m, true);
    RoundTrip(m, false);
  }
}
