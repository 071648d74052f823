/**
 The CoAP message format in the words of sections 3 and 3.1 of RFC 7252, in literal numbers and
 independent of the reader and the writer: what the writer writes is such a text, and the only one
 for its options, and what the reader takes is read as one.
 */
module CoapFormat {
  import opened Bytes
  import opened CoapWire
  import opened CoapRoundTrip
  import opened CoapSerialize
  import opened CoapCanonical
  import opened CoapFields

  // ------------------------------------------------------------- options

  /** How many bytes extend a nibble. */
  function Extends(nibble: nat): nat { if nibble == 13 then 1 else if nibble == 14 then 2 else 0 }

  /** The text of one option with this delta and value, and of what is behind it. */
  predicate IsOption(s: seq<byte>, delta: nat, value: seq<byte>, rest: seq<byte>) {
    && s != []
    && var i := 1 + Extends(s[0] / 16);
       var j := i + Extends(s[0] % 16);
       && |s| == j + |value| + |rest|
       && Stands(s[0] / 16, s[1..i], delta) && Stands(s[0] % 16, s[i..j], |value|)
       && s[j..j + |value|] == value && s[j + |value|..] == rest
  }

  /** The text of an option list: each number is the sum of the deltas so far. */
  ghost predicate IsOptions(s: seq<byte>, previous: nat, options: seq<Opt>)
    decreases |options|
  {
    if options == [] then s == []
    else
      previous <= options[0].number &&
      exists rest :: IsOption(s, options[0].number - previous, options[0].value, rest)
                     && IsOptions(rest, options[0].number, options[1..])
  }

  /** Sorted by number, no value longer than a length can say. */
  predicate Writable(previous: nat, options: seq<Opt>)
    decreases |options|
  {
    options != [] ==>
      previous <= options[0].number && |options[0].value| <= 65804 && Writable(options[0].number, options[1..])
  }

  lemma ExtensionSize(v: nat)
    ensures |Extension(v)| == Extends(Nibble(v))
  {
  }

  lemma HeadParts(previous: uint16, o: Opt, rest: seq<byte>)
    requires previous <= o.number
    ensures var s := OptionHead(previous, o) + o.value + rest;
            var d, l := o.number - previous, |o.value|;
            var i := 1 + |Extension(d)|;
            var j := i + |Extension(l)|;
            && s[0] == 16 * Nibble(d) + Nibble(l) && |s| == j + l + |rest|
            && s[1..i] == Extension(d) && s[i..j] == Extension(l)
            && s[j..j + l] == o.value && s[j + l..] == rest
  {
    hide Nibble, Extension;
  }

  /** The writer's text of an option is the only one. */
  lemma OneOptionText(previous: uint16, o: Opt, s: seq<byte>, rest: seq<byte>)
    requires previous <= o.number
    ensures IsOption(s, o.number - previous, o.value, rest)
            <==> |o.value| <= 65804 && s == OptionHead(previous, o) + o.value + rest
  {
    hide Nibble, Extension, Stands, OptionHead;
    var d, l := o.number - previous, |o.value|;
    HeadParts(previous, o, rest);
    NibblesApart(d, l);
    ExtensionSize(d);
    ExtensionSize(l);
    WritesStandard(d, Nibble(d), Extension(d));
    WritesStandard(l, Nibble(l), Extension(l));
    if IsOption(s, d, o.value, rest) {
      OptionParts(s, d, o.value, rest);
      if l <= 65804 {
        OptionParts(OptionHead(previous, o) + o.value + rest, d, o.value, rest);
      }
    }
  }

  /** The bytes of an option. */
  lemma OptionParts(s: seq<byte>, delta: nat, value: seq<byte>, rest: seq<byte>)
    requires IsOption(s, delta, value, rest)
    ensures |value| <= 65804
    ensures s == [s[0]] + Extension(delta) + Extension(|value|) + value + rest
    ensures s[0] == 16 * Nibble(delta) + Nibble(|value|)
  {
    hide Nibble, Extension, Stands, Extends;
    var i := 1 + Extends(s[0] / 16);
    var j := i + Extends(s[0] % 16);
    WritesStandard(delta, s[0] / 16, s[1..i]);
    WritesStandard(|value|, s[0] % 16, s[i..j]);
    FourParts(s, i, j, j + |value|);
  }

  lemma FourParts(s: seq<byte>, i: nat, j: nat, k: nat)
    requires 1 <= i <= j <= k <= |s|
    ensures s == [s[0]] + s[1..i] + s[i..j] + s[j..k] + s[k..]
  {
  }

  lemma TextBehind(s: seq<byte>, previous: nat, options: seq<Opt>) returns (rest: seq<byte>)
    requires options != [] && IsOptions(s, previous, options)
    ensures previous <= options[0].number
    ensures IsOption(s, options[0].number - previous, options[0].value, rest)
    ensures IsOptions(rest, options[0].number, options[1..])
  {
    hide IsOption;
    rest :| IsOption(s, options[0].number - previous, options[0].value, rest)
            && IsOptions(rest, options[0].number, options[1..]);
  }

  /** The writer's text of a list is the only one, for every list that has any. */
  lemma {:induction false} OneOptionsText(previous: uint16, options: seq<Opt>, s: seq<byte>)
    ensures IsOptions(s, previous, options) <==> Writable(previous, options) && s == EncodeOptions(previous, options)
    decreases |options|
  {
    hide IsOption, OptionHead;
    if options != [] && previous <= options[0].number {
      var o, tail := options[0], EncodeOptions(options[0].number, options[1..]);
      OneOptionsText(o.number, options[1..], tail);
      OneOptionText(previous, o, OptionHead(previous, o) + o.value + tail, tail);
      if IsOptions(s, previous, options) {
        var rest := TextBehind(s, previous, options);
        OneOptionsText(o.number, options[1..], rest);
        OneOptionText(previous, o, s, rest);
      }
    }
  }

  // ------------------------------------------------------------- messages

  /** The text of a message: header, token, options, and the payload behind a byte 255 if there is one. */
  ghost predicate IsMessage(b: seq<byte>, m: Message, littleEndian: bool, options: seq<byte>) {
    var n := 4 + |m.token|;
    && n + |options| <= |b|
    && b[0] == m.header && b[1] == m.code && b[0] % 16 == |m.token| <= 8
    && m.identity == (if littleEndian then 256 * Int(b[2]) + Int(b[3]) else 256 * Int(b[3]) + Int(b[2]))
    && b[4..n] == m.token && b[n..n + |options|] == options
    && b[n + |options|..] == if m.payload == [] then [] else [0xFF] + m.payload
  }

  lemma EncodeIsMessage(m: Message, littleEndian: bool)
    requires Sendable(m)
    ensures IsMessage(Encode(m, littleEndian), m, littleEndian, EncodeOptions(0, m.options))
  {
    hide EncodeOptions;
    var options := EncodeOptions(0, m.options);
    var text := Encode(m, littleEndian);
    var n := 4 + |m.token|;
    IdentityBytes(m.identity);
    assert text[4..n] == m.token && text[n..n + |options|] == options;
  }

  lemma OneMessageText(a: seq<byte>, b: seq<byte>, m: Message, littleEndian: bool, options: seq<byte>)
    requires IsMessage(a, m, littleEndian, options) && IsMessage(b, m, littleEndian, options)
    ensures a == b
  {
    SameHeader(a, b, littleEndian);
    var n := 4 + |m.token|;
    ThreeMore(a, 4, n, n + |options|);
    ThreeMore(b, 4, n, n + |options|);
  }

  lemma SameHeader(a: seq<byte>, b: seq<byte>, littleEndian: bool)
    requires 4 <= |a| && 4 <= |b| && a[0] == b[0] && a[1] == b[1]
    requires if littleEndian then 256 * Int(a[2]) + Int(a[3]) == 256 * Int(b[2]) + Int(b[3])
             else 256 * Int(a[3]) + Int(a[2]) == 256 * Int(b[3]) + Int(b[2])
    ensures a[..4] == b[..4]
  {
    BytesOfIdentity(a[2], a[3]);
    BytesOfIdentity(b[2], b[3]);
    assert a[..4] == [a[0], a[1], a[2], a[3]] && b[..4] == [b[0], b[1], b[2], b[3]];
  }

  lemma ThreeMore(s: seq<byte>, i: nat, j: nat, k: nat)
    requires i <= j <= k <= |s|
    ensures s == s[..i] + s[i..j] + s[j..k] + s[k..]
  {
  }

  /** What the writer writes is the text of its message, and no other bytes are. */
  lemma WritesFormat(m: Message, littleEndian: bool, b: seq<byte>)
    requires Sendable(m)
    ensures IsMessage(b, m, littleEndian, EncodeOptions(0, m.options)) <==> b == Encode(m, littleEndian)
  {
    hide EncodeOptions, Encode, IsMessage;
    EncodeIsMessage(m, littleEndian);
    if IsMessage(b, m, littleEndian, EncodeOptions(0, m.options)) {
      OneMessageText(b, Encode(m, littleEndian), m, littleEndian, EncodeOptions(0, m.options));
    }
  }

  lemma IdentityBytes(identity: uint16)
    ensures 256 * (identity as int / 256) + identity as int % 256 == identity as int
  {
  }

  lemma BytesOfIdentity(first: byte, second: byte)
    ensures (256 * Int(first) + Int(second)) / 256 == first && (256 * Int(first) + Int(second)) % 256 == second
    ensures (256 * Int(second) + Int(first)) / 256 == second && (256 * Int(second) + Int(first)) % 256 == first
  {
  }

  /**
   A message of version one in its standard text, with a payload, is taken as that message exactly if
   each delta and length is one that the host reads as it was written.
   */
  lemma ReadsFormat(b: seq<byte>, m: Message, littleEndian: bool, options: seq<byte>)
    requires IsMessage(b, m, littleEndian, options) && IsOptions(options, 0, m.options)
    requires b[0] / 64 == 1 && m.payload != []
    ensures Decode(b, littleEndian) == Ok(m) <==> OptionsSurvive(0, m.options, littleEndian)
  {
    hide IsOptions, OptionsSurvive, EncodeOptions, Decode, Encode;
    OneOptionsText(0, m.options, options);
    WritesFormat(m, littleEndian, b);
    RoundTrip(m, littleEndian);
  }

  /**
   Every accepted string is of version one, its token is of at most eight bytes, and a byte 255 is
   where its options end and its payload begins.
   */
  lemma AcceptsFormat(b: seq<byte>, littleEndian: bool)
    requires Decode(b, littleEndian).Ok?
    ensures var m := Decode(b, littleEndian).value;
            var n, p := 4 + |m.token|, |b| - |m.payload| - 1;
            && n <= p && DecodeOptions(b[n..], 0, littleEndian).rest == b[p..]
            && b[p] == 0xFF && b[p + 1..] == m.payload && b[0] / 64 == 1
            && b[0] == m.header && b[1] == m.code && b[0] % 16 == |m.token| <= 8 && b[4..n] == m.token
            && m.identity == (if littleEndian then 256 * Int(b[2]) + Int(b[3]) else 256 * Int(b[3]) + Int(b[2]))
  {
    hide DecodeOptions, Decode;
    AcceptedShape(b, littleEndian);
    AcceptedPieces(b, littleEndian);
    var m := Decode(b, littleEndian).value;
    var n := 4 + |m.token|;
    var r := DecodeOptions(b[n..], 0, littleEndian);
    RestIsSuffix(b[n..], 0, littleEndian);
    SuffixOf(b, n, r.rest);
    var p := |b| - |r.rest|;
    assert b[p..] == [0xFF] + m.payload;
    assert b[p] == b[p..][0];
    assert b[p + 1..] == b[p..][1..];
  }

  lemma AcceptedPieces(b: seq<byte>, littleEndian: bool)
    requires Decode(b, littleEndian).Ok?
    ensures |b| >= 4
    ensures var m := Decode(b, littleEndian).value;
            && 4 + |m.token| <= |b| && b[0] / 64 == 1
            && b[0] == m.header && b[1] == m.code && b[0] % 16 == |m.token| <= 8 && b[4..4 + |m.token|] == m.token
            && m.identity == (if littleEndian then 256 * Int(b[2]) + Int(b[3]) else 256 * Int(b[3]) + Int(b[2]))
  {
    hide DecodeOptions;
    AcceptedState(Fresh, b, littleEndian);
    hide Parse;
  }

  /** A message as section 3 spells it out, byte by byte. */
  lemma SampleMessage()
    ensures Encode(Message(0x41, 0x02, 0x1234, [0xAB], [Opt(11, [0x61]), Opt(12, [])], [0x42]), true) ==
            [0x41, 0x02, 0x12, 0x34, 0xAB, 0xB1, 0x61, 0x10, 0xFF, 0x42]
  {
    var options := [Opt(11, [0x61]), Opt(12, [])];
    assert options[1..] == [Opt(12, [])] && options[1..][1..] == [];
    assert EncodeOptions(12, options[1..][1..]) == [];
    assert EncodeOptions(11, options[1..]) == [0x10];
    assert EncodeOptions(0, options) == [0xB1, 0x61, 0x10];
  }

  // ------------------------------------------------------------- refusals

  /** Why a byte string is refused, in the order of the checks. */
  lemma RefusalIs(b: seq<byte>, littleEndian: bool)
    ensures var r := Decode(b, littleEndian);
            if |b| < 4 then r == Err(InvalidArgument)
            else if b[0] / 64 != 1 then r == Err(ProtocolVersion)
            else if b[0] % 16 > 8 then r == Err(TokenTooLong)
            else if |b| < 4 + b[0] % 16 then r == Err(InvalidArgument)
            else
              var options := DecodeOptions(b[4 + b[0] % 16..], 0, littleEndian);
              if options.error.Some? then r == Err(options.error.value)
              else if options.rest == [] then r == Err(InvalidArgument)
              else r.Ok?
  {
    hide DecodeOptions, ParseToken, ParseOptions, ParsePayload;
    var s1 := ParseHeader(Fresh, b, littleEndian);
    if s1.error.None? {
      TokenRefusal(s1.state, b);
      hide ParseHeader;
      var s2 := ParseToken(s1.state, b);
      if s2.error.None? {
        BodyRefusal(s2.state, b, littleEndian);
      }
    }
  }

  lemma TokenRefusal(s: Snapshot, b: seq<byte>)
    requires Shaped(s)
    ensures var r := ParseToken(s, b);
            && r.state.header == s.header
            && r.error == if s.header % 16 > 8 then Some(TokenTooLong)
                          else if |b| < 4 + s.header % 16 then Some(InvalidArgument) else None
  {
  }

  lemma BodyRefusal(s: Snapshot, b: seq<byte>, littleEndian: bool)
    requires Shaped(s) && 4 + s.header % 16 <= |b|
    ensures var options, r := DecodeOptions(b[4 + s.header % 16..], 0, littleEndian), ParseOptions(s, b, littleEndian);
            if options.error.Some? then r.error == options.error
            else
              && r.error.None?
              && ParsePayload(r.state, b).error == if options.rest == [] then Some(InvalidArgument) else None
  {
    hide DecodeOptions;
  }

  /** Which field of an option is refused: fifteen, an extension that is not there, or a value that is not. */
  lemma OptionRefusalIs(s: seq<byte>, littleEndian: bool)
    requires s != []
    ensures var d, l, r := s[0] / 16, s[0] % 16, ReadOption(s, littleEndian);
            if d == 15 || (d == 14 && |s| < 2) then r == Err(OptionDelta)
            else if l == 15 || (l == 13 && |s| < 1 + Extends(d)) || (l == 14 && |s| < 2 + Extends(d)) then
              r == Err(OptionLength)
            else r.Ok? || r == Err(OptionLength)
  {
  }

  /** Why the serializer refuses a buffer of this size. */
  lemma WriteRefusalIs(m: Message, size: nat, littleEndian: bool)
    requires Sendable(m)
    ensures var length, options := |Encode(m, littleEndian)|, m.options;
            SerializeError(m, size, littleEndian) ==
              if size < 4 + |m.token| then Some(InvalidArgument)
              else if size < length then Some(BufferTooSmall)
              else if size == length && m.payload == [] && options != [] && options[|options| - 1].value == [] then
                Some(BufferTooSmall)
              else None
  {
    hide Encode;
  }
}
