/** How the encoding of an option list grows option by option, as the serializer writes it. */
module CoapSerialize {
  import opened Bytes
  import opened CoapWire
  import opened CoapRoundTrip

  /** The number the delta of the next option is taken from. */
  function LastNumber(previous: uint16, options: seq<Opt>): uint16 {
    if options == [] then previous else options[|options| - 1].number
  }

  lemma {:induction false} EncodesConcatenation(previous: uint16, a: seq<Opt>, b: seq<Opt>)
    ensures EncodeOptions(previous, a + b)
         == EncodeOptions(previous, a) + EncodeOptions(LastNumber(previous, a), b)
    decreases |a|
  {
    hide OptionHead;
    if a == [] {
      assert a + b == b;
    } else {
      var o := a[0];
      EncodesConcatenation(o.number, a[1..], b);
      assert (a + b)[0] == o && (a + b)[1..] == a[1..] + b;
      assert LastNumber(o.number, a[1..]) == LastNumber(previous, a);
    }
  }

  /** The encoding of the first `i + 1` options, and that nothing is ever longer than the whole. */
  lemma EncodesNext(options: seq<Opt>, i: nat)
    requires i < |options|
    ensures var o := options[i];
            var head := OptionHead(LastNumber(0, options[..i]), o);
            var done := EncodeOptions(0, options[..i]);
            && EncodeOptions(0, options[..i + 1]) == done + head + o.value
            && |done| + |head| + |o.value| <= |EncodeOptions(0, options)|
            && (i + 1 < |options| ==> |done| + |head| + |o.value| < |EncodeOptions(0, options)|)
  {
    hide OptionHead, EncodeOptions;
    var o, last := options[i], LastNumber(0, options[..i]);
    assert options[..i + 1] == options[..i] + [o];
    EncodesConcatenation(0, options[..i], [o]);
    EncodesOne(last, o);
    assert options == options[..i + 1] + options[i + 1..];
    EncodesConcatenation(0, options[..i + 1], options[i + 1..]);
    if i + 1 < |options| {
      EncodesSomething(LastNumber(0, options[..i + 1]), options[i + 1..]);
    }
  }

  lemma EncodesSomething(previous: uint16, options: seq<Opt>)
    requires options != []
    ensures EncodeOptions(previous, options) != []
  {
    HeadShape(previous, options[0]);
  }

  lemma EncodesPieces(m: Message, littleEndian: bool)
    requires Sendable(m)
    ensures |Prefix(m, littleEndian)| == HEADER_SIZE + |m.token|
    ensures Encode(m, littleEndian)
         == Prefix(m, littleEndian) + EncodeOptions(0, m.options) + EncodePayload(m.payload)
  {
  }

  lemma EncodesOne(previous: uint16, o: Opt)
    ensures EncodeOptions(previous, [o]) == OptionHead(previous, o) + o.value
  {
    assert [o][1..] == [];
  }

  /** The options do not fit: they end behind `size`, or at it with an empty value. */
  predicate OptionsRefused(end: nat, size: nat, options: seq<Opt>) {
    end > size || (end == size && options != [] && options[|options| - 1].value == [])
  }

  /** How the real pass ends for a caller's `size`. */
  function SerializeError(m: Message, size: nat, littleEndian: bool): Option<Error>
    requires Sendable(m)
  {
    if size < HEADER_SIZE + |m.token| then Some(InvalidArgument)
    else if size < |Encode(m, littleEndian)| || (size == |Encode(m, littleEndian)| && EndsInEmptyValue(m)) then
      Some(BufferTooSmall)
    else None
  }

  /** The last bytes on the wire are an option head. */
  predicate EndsInEmptyValue(m: Message) {
    m.payload == [] && m.options != [] && m.options[|m.options| - 1].value == []
  }

  // ------------------------------------------------- how far the real pass writes

  /** Behind the last byte written of an option head: each of its three parts is written before the check. */
  function HeadReach(offset: nat, size: nat, previous: uint16, o: Opt): nat {
    var behindDelta := offset + 1 + |Extension(Delta(previous, o.number))|;
    if offset > size then offset
    else if offset + 1 > size then offset + 1
    else if behindDelta >= size then behindDelta
    else behindDelta + |Extension(|o.value|)|
  }

  /** The value is written before its end is compared with `size`. */
  function OptionReach(offset: nat, size: nat, previous: uint16, o: Opt): nat {
    if offset + |OptionHead(previous, o)| >= size then HeadReach(offset, size, previous, o)
    else offset + |OptionHead(previous, o)| + |o.value|
  }

  predicate OptionFits(offset: nat, size: nat, previous: uint16, o: Opt) {
    offset + |OptionHead(previous, o)| < size && offset + |OptionHead(previous, o)| + |o.value| <= size
  }

  function OptionsReach(offset: nat, size: nat, previous: uint16, options: seq<Opt>): nat
    decreases |options|
  {
    if options == [] then offset
    else if OptionFits(offset, size, previous, options[0]) then
      OptionsReach(offset + |OptionHead(previous, options[0])| + |options[0].value|, size,
                   options[0].number, options[1..])
    else OptionReach(offset, size, previous, options[0])
  }

  /** The marker is written before anything behind it is compared with `size`. */
  function PayloadReach(offset: nat, size: nat, payload: seq<byte>): nat {
    if payload == [] then offset
    else if offset + 1 + |payload| > size then offset + 1
    else offset + 1 + |payload|
  }

  function BodyReach(start: nat, size: nat, options: seq<Opt>, payload: seq<byte>): nat {
    var end := start + |EncodeOptions(0, options)|;
    if OptionsRefused(end, size, options) then OptionsReach(start, size, 0, options)
    else PayloadReach(end, size, payload)
  }

  /** Behind the last byte that the real pass writes. */
  function Reach(m: Message, size: nat): nat
    requires Sendable(m)
  {
    var start := HEADER_SIZE + |m.token|;
    if size < start then 0 else BodyReach(start, size, m.options, m.payload)
  }

  /** `size` is where the extension of a delta ends, or where an option head ends. */
  predicate AtFieldEnd(offset: nat, size: nat, previous: uint16, options: seq<Opt>)
    decreases |options|
  {
    options != [] &&
    var o := options[0];
    || size == offset + 1 + |Extension(Delta(previous, o.number))|
    || size == offset + |OptionHead(previous, o)|
    || AtFieldEnd(offset + |OptionHead(previous, o)| + |o.value|, size, o.number, options[1..])
  }

  /**
   The sizes for which no byte at or behind `size` is written: too small to start, large enough for
   the marker if there is a payload, or else ending exactly where a field of an option head ends.
   */
  predicate StaysInside(m: Message, size: nat) {
    var start := HEADER_SIZE + |m.token|;
    var end := start + |EncodeOptions(0, m.options)|;
    || size < start
    || (if OptionsRefused(end, size, m.options) then AtFieldEnd(start, size, 0, m.options)
        else m.payload == [] || end < size)
  }

  lemma HeadLength(previous: uint16, o: Opt)
    ensures |OptionHead(previous, o)| ==
            1 + |Extension(Delta(previous, o.number))| + |Extension(|o.value|)|
  {
  }

  lemma {:induction false} FieldEndsBehind(offset: nat, size: nat, previous: uint16, options: seq<Opt>)
    requires AtFieldEnd(offset, size, previous, options)
    ensures offset < size
    decreases |options|
  {
    hide OptionHead, Extension, Delta;
    var o := options[0];
    HeadLength(previous, o);
    if AtFieldEnd(offset + |OptionHead(previous, o)| + |o.value|, size, o.number, options[1..]) {
      FieldEndsBehind(offset + |OptionHead(previous, o)| + |o.value|, size, o.number, options[1..]);
    }
  }

  lemma EncodesLength(previous: uint16, options: seq<Opt>)
    requires options != []
    ensures var o := options[0];
            |EncodeOptions(previous, options)| ==
              |OptionHead(previous, o)| + |o.value| + |EncodeOptions(o.number, options[1..])|
  {
    hide OptionHead;
  }

  /** The option loop reaches the end of the options if they fit, and otherwise stays inside at a field's end only. */
  lemma {:induction false} OptionsReachInside(offset: nat, size: nat, previous: uint16, options: seq<Opt>)
    requires offset <= size
    ensures var end := offset + |EncodeOptions(previous, options)|;
            if OptionsRefused(end, size, options) then
              OptionsReach(offset, size, previous, options) <= size <==> AtFieldEnd(offset, size, previous, options)
            else OptionsReach(offset, size, previous, options) == end
    decreases |options|
  {
    hide OptionHead, Extension, Delta, EncodeOptions;
    if options == [] {
      EncodesNone(previous, []);
    } else {
      var o, rest := options[0], options[1..];
      var next := offset + |OptionHead(previous, o)| + |o.value|;
      HeadLength(previous, o);
      EncodesLength(previous, options);
      if rest == [] {
        EncodesNone(o.number, []);
      } else {
        HeadLength(o.number, rest[0]);
        EncodesLength(o.number, rest);
      }
      if OptionFits(offset, size, previous, o) {
        OptionsReachInside(next, size, o.number, rest);
      } else if AtFieldEnd(next, size, o.number, rest) {
        FieldEndsBehind(next, size, o.number, rest);
      }
    }
  }

  /** The real pass writes nothing at or behind `size` exactly if the size and the message are such. */
  lemma WritesInside(m: Message, size: nat)
    requires Sendable(m)
    ensures Reach(m, size) <= size <==> StaysInside(m, size)
  {
    hide OptionHead, EncodeOptions, OptionsReach, AtFieldEnd;
    if size >= HEADER_SIZE + |m.token| {
      OptionsReachInside(HEADER_SIZE + |m.token|, size, 0, m.options);
    }
  }

  /** From the size that the dry run reports on, the whole encoding is written and nothing behind it. */
  lemma ReportedSizeIsSafe(m: Message, size: nat, littleEndian: bool)
    requires Sendable(m) && |Encode(m, littleEndian)| <= size
    ensures Reach(m, size) == |Encode(m, littleEndian)|
  {
    hide OptionHead, EncodeOptions, OptionsReach, Prefix, Encode;
    var start := HEADER_SIZE + |m.token|;
    EncodesPieces(m, littleEndian);
    OptionsReachInside(start, size, 0, m.options);
    if OptionsRefused(start + |EncodeOptions(0, m.options)|, size, m.options) {
      ReachesEmptyEnd(start, size, 0, m.options);
    }
  }

  /** Options that end at `size` with an empty value are all written, and refused after that. */
  lemma {:induction false} ReachesEmptyEnd(offset: nat, size: nat, previous: uint16, options: seq<Opt>)
    requires options != [] && options[|options| - 1].value == []
    requires offset + |EncodeOptions(previous, options)| == size
    ensures OptionsReach(offset, size, previous, options) == size
    decreases |options|
  {
    hide OptionHead, Extension, Delta, EncodeOptions;
    var o, rest := options[0], options[1..];
    HeadLength(previous, o);
    EncodesLength(previous, options);
    if rest == [] {
      EncodesNone(o.number, []);
    } else {
      HeadLength(o.number, rest[0]);
      EncodesLength(o.number, rest);
      ReachesEmptyEnd(offset + |OptionHead(previous, o)| + |o.value|, size, o.number, rest);
    }
  }

  /** One size too small: a value of ten bytes is copied whole before the check. */
  lemma ValueOverruns(value: seq<byte>)
    requires |value| == 10
    ensures var m := Message(0x40, 1, 0, [], [Opt(11, value)], []);
            SerializeError(m, 6, true) == Some(BufferTooSmall) && Reach(m, 6) == 15
  {
    var m := Message(0x40, 1, 0, [], [Opt(11, value)], []);
    assert m.options[1..] == [];
  }
}
