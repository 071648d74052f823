/**
 The CoAP message format (sections 3 and 3.1 of RFC 7252) as the packet code
 reads and writes it: pure functions on byte sequences that the `Packet` methods
 refine. `littleEndian` is the packet's byte-order flag.
 */
module CoapWire {
  import opened Bytes

  const COAP_VERSION := 1
  const HEADER_SIZE := 4
  const TOKEN_MAX_LENGTH := 8
  const PAYLOAD_MARKER: byte := 0xFF
  /** One more than the largest `size_t` of a 64-bit host. */
  const SIZE_MODULUS := 0x1_0000_0000_0000_0000

  datatype Error =
    | InvalidArgument
    | ProtocolVersion
    | TokenTooLong
    | OptionDelta
    | OptionLength
    | OptionNumber
    | BufferTooSmall

  datatype Result<+T> = Ok(value: T) | Err(error: Error)

  datatype Opt = Opt(number: uint16, value: seq<byte>)

  /** What a message says on the wire; the token holds the bytes the header announces. */
  datatype Message = Message(
    header: byte, code: byte, identity: uint16,
    token: seq<byte>, options: seq<Opt>, payload: seq<byte>)

  function Version(header: byte): nat { header / 64 }

  function TokenLength(header: byte): nat { header % 16 }

  predicate Sendable(m: Message) {
    TokenLength(m.header) == |m.token| <= TOKEN_MAX_LENGTH
  }

  // ---------------------------------------------------------------- encoding

  function Nibble(v: nat): nat {
    if v < 13 then v
    else if v <= 0xFF + 13 then 13
    else if v <= 0xFFFF + 269 then 14
    else 0
  }

  function Extension(v: nat): seq<byte> {
    if Nibble(v) == 13 then [v - 13]
    else if Nibble(v) == 14 then [(v - 269) / 256, (v - 269) % 256]
    else []
  }

  /** The difference of two option numbers in `size_t` arithmetic. */
  function Delta(previous: uint16, number: uint16): nat {
    if previous <= number then number - previous else SIZE_MODULUS + number - previous
  }

  function OptionHead(previous: uint16, o: Opt): seq<byte> {
    [16 * Nibble(Delta(previous, o.number)) + Nibble(|o.value|)]
    + Extension(Delta(previous, o.number))
    + Extension(|o.value|)
  }

  function EncodeOptions(previous: uint16, options: seq<Opt>): seq<byte>
    decreases |options|
  {
    if options == [] then []
    else OptionHead(previous, options[0]) + options[0].value + EncodeOptions(options[0].number, options[1..])
  }

  function EncodeIdentity(identity: uint16, littleEndian: bool): seq<byte> {
    if littleEndian then [identity / 256, identity % 256] else [identity % 256, identity / 256]
  }

  function EncodePayload(payload: seq<byte>): seq<byte> {
    if payload == [] then [] else [PAYLOAD_MARKER] + payload
  }

  function Encode(m: Message, littleEndian: bool): seq<byte> {
    [m.header, m.code] + EncodeIdentity(m.identity, littleEndian) + m.token
    + EncodeOptions(0, m.options) + EncodePayload(m.payload)
  }

  // ---------------------------------------------------------------- decoding

  /** The byte at `i`; the byte past the end that the code may touch counts as zero here. */
  function At(s: seq<byte>, i: nat): byte { if i < |s| then s[i] else 0 }

  /** A two-byte extension: a little-endian host takes the first byte as the low one. */
  function ReadWord(first: byte, second: byte, littleEndian: bool): uint16 {
    if littleEndian then Word(second, first) else Word(first, second)
  }

  datatype Field = Field(value: uint16, used: nat)

  function Word(high: int, low: int): uint16
    requires 0 <= low < 256 && 0 <= high < 256
  {
    256 * high + low
  }

  /** Reads a delta or a length whose nibble has been read and whose extension follows position `k`. */
  function ReadField(nibble: nat, s: seq<byte>, k: nat, littleEndian: bool): Option<Field> {
    if nibble == 13 then
      if k + 1 > |s| then None else Some(Field(At(s, k + 1) + 13, 1))
    else if nibble == 14 then
      if k + 2 > |s| then None
      else Some(Field((ReadWord(At(s, k + 1), At(s, k + 2), littleEndian) + 269) % 0x1_0000, 2))
    else if nibble < 13 then Some(Field(nibble, 0))
    else None
  }

  datatype OptionAt = OptionAt(delta: uint16, start: nat, length: uint16)

  /** The option that begins `s`: where its value starts and how long it is. */
  function ReadOption(s: seq<byte>, littleEndian: bool): (r: Result<OptionAt>)
    requires s != []
    ensures r.Ok? ==> 0 < r.value.start <= r.value.start + r.value.length <= |s|
  {
    match ReadField(s[0] / 16, s, 0, littleEndian)
    case None => Err(OptionDelta)
    case Some(d) =>
      match ReadField(s[0] % 16, s, d.used, littleEndian)
      case None => Err(OptionLength)
      case Some(l) =>
        var start := d.used + l.used + 1;
        if start + l.value > |s| then Err(OptionLength)
        else Ok(OptionAt(d.value, start, l.value))
  }

  /** The options read, the bytes left from the stop position on, and the error if there was one. */
  datatype OptionsRead = OptionsRead(options: seq<Opt>, rest: seq<byte>, error: Option<Error>)

  function DecodeOptions(s: seq<byte>, number: uint16, littleEndian: bool): (r: OptionsRead)
    ensures |r.rest| <= |s|
    decreases |s|
  {
    if s == [] || s[0] == PAYLOAD_MARKER then OptionsRead([], s, None)
    else
      match ReadOption(s, littleEndian)
      case Err(e) => OptionsRead([], s, Some(e))
      case Ok(at) =>
        var next := (number + at.delta) % 0x1_0000;
        var tail := DecodeOptions(s[at.start + at.length..], next, littleEndian);
        OptionsRead([Opt(next, s[at.start..at.start + at.length])] + tail.options, tail.rest, tail.error)
  }

  // ----------------------------------------------------- the state of a packet

  /** The fields of a packet; the token array always has eight bytes. */
  datatype Snapshot = Snapshot(
    header: byte, code: byte, identity: uint16, token: seq<byte>,
    options: seq<Opt>, payloadOffset: nat, payload: seq<byte>)

  const Fresh := Snapshot(0, 0, 0, [0, 0, 0, 0, 0, 0, 0, 0], [], 0, [])

  predicate Shaped(s: Snapshot) { |s.token| == TOKEN_MAX_LENGTH }

  /** What a packet in this state says on the wire. */
  function Wire(s: Snapshot): Message
    requires Shaped(s) && TokenLength(s.header) <= TOKEN_MAX_LENGTH
  {
    Message(s.header, s.code, s.identity, s.token[..TokenLength(s.header)], s.options, s.payload)
  }

  datatype Step = Step(state: Snapshot, error: Option<Error>)

  function ParseHeader(s: Snapshot, b: seq<byte>, littleEndian: bool): (r: Step)
    requires Shaped(s)
    ensures Shaped(r.state)
    ensures r.error.None? ==> |b| >= HEADER_SIZE
  {
    if |b| < HEADER_SIZE then Step(s, Some(InvalidArgument))
    else if Version(b[0]) != COAP_VERSION then Step(s.(header := b[0]), Some(ProtocolVersion))
    else Step(s.(header := b[0], code := b[1],
                 identity := if littleEndian then Word(b[2], b[3]) else Word(b[3], b[2])), None)
  }

  function ParseToken(s: Snapshot, b: seq<byte>): (r: Step)
    requires Shaped(s)
    ensures Shaped(r.state)
    ensures r.error.None? ==> TokenLength(r.state.header) <= TOKEN_MAX_LENGTH
    ensures r.error.None? ==> HEADER_SIZE + TokenLength(r.state.header) <= |b|
  {
    var n := TokenLength(s.header);
    if n > TOKEN_MAX_LENGTH then Step(s, Some(TokenTooLong))
    else if |b| < HEADER_SIZE + n then Step(s, Some(InvalidArgument))
    else Step(s.(token := b[HEADER_SIZE..HEADER_SIZE + n] + s.token[n..]), None)
  }

  function ParseOptions(s: Snapshot, b: seq<byte>, littleEndian: bool): (r: Step)
    requires Shaped(s) && HEADER_SIZE + TokenLength(s.header) <= |b|
    ensures Shaped(r.state) && r.state.header == s.header
  {
    var read := DecodeOptions(b[HEADER_SIZE + TokenLength(s.header)..], 0, littleEndian);
    if read.error.Some? then Step(s.(options := read.options), read.error)
    else Step(s.(options := read.options, payloadOffset := |b| - |read.rest| + 1), None)
  }

  function ParsePayload(s: Snapshot, b: seq<byte>): (r: Step)
    requires Shaped(s)
    ensures Shaped(r.state) && r.state.header == s.header
  {
    if |b| < s.payloadOffset then Step(s, Some(InvalidArgument))
    else Step(s.(payload := s.payload + b[s.payloadOffset..]), None)
  }

  function Parse(s: Snapshot, b: seq<byte>, littleEndian: bool): (r: Step)
    requires Shaped(s)
    ensures Shaped(r.state)
    ensures r.error.None? ==> TokenLength(r.state.header) <= TOKEN_MAX_LENGTH
  {
    var s1 := ParseHeader(s, b, littleEndian);
    if s1.error.Some? then s1 else
    var s2 := ParseToken(s1.state, b);
    if s2.error.Some? then s2 else
    var s3 := ParseOptions(s2.state, b, littleEndian);
    if s3.error.Some? then s3 else
    ParsePayload(s3.state, b)
  }

  /** The message a fresh packet holds after parsing `b`. */
  function Decode(b: seq<byte>, littleEndian: bool): Result<Message> {
    var r := Parse(Fresh, b, littleEndian);
    match r.error
    case Some(e) => Err(e)
    case None => Ok(Wire(r.state))
  }
}
