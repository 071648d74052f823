/**
 The reverse direction: of the byte strings the parser accepts, exactly the canonical
 ones are what the serializer writes for the message they decode to.
 */
module CoapCanonical {
  import opened Bytes
  import opened CoapWire
  import opened CoapRoundTrip

  /** A field that is written again as it was read. */
  predicate FieldCanonical(nibble: nat, s: seq<byte>, k: nat, littleEndian: bool) {
    nibble == 14 ==>
      && ReadWord(At(s, k + 1), At(s, k + 2), littleEndian) + 269 < 0x1_0000
      && (littleEndian ==> At(s, k + 1) == At(s, k + 2))
  }

  /** The option number does not wrap, and both fields are canonical. */
  predicate OptionCanonical(s: seq<byte>, number: uint16, littleEndian: bool)
    requires s != []
  {
    match ReadOption(s, littleEndian)
    case Err(_) => false
    case Ok(at) =>
      && number + at.delta < 0x1_0000
      && FieldCanonical(s[0] / 16, s, 0, littleEndian)
      && FieldCanonical(s[0] % 16, s, ExtensionLength(s[0] / 16), littleEndian)
  }

  predicate OptionsCanonical(s: seq<byte>, number: uint16, littleEndian: bool)
    decreases |s|
  {
    s != [] && s[0] != PAYLOAD_MARKER ==>
      && OptionCanonical(s, number, littleEndian)
      && var at := ReadOption(s, littleEndian).value;
         OptionsCanonical(s[at.start + at.length..], number + at.delta, littleEndian)
  }

  /** Of an accepted byte string: its options are canonical and bytes follow its payload marker. */
  predicate Canonical(b: seq<byte>, littleEndian: bool)
    requires b != [] && HEADER_SIZE + TokenLength(b[0]) <= |b|
  {
    var s := b[HEADER_SIZE + TokenLength(b[0])..];
    OptionsCanonical(s, 0, littleEndian) && DecodeOptions(s, 0, littleEndian).rest != [PAYLOAD_MARKER]
  }

  function ExtensionLength(nibble: nat): nat {
    if nibble == 13 then 1 else if nibble == 14 then 2 else 0
  }

  /** A two-byte extension that is written again with the same two bytes. */
  lemma WritesWord(first: byte, second: byte, v: uint16, littleEndian: bool)
    requires v == (ReadWord(first, second, littleEndian) as int + 269) % 0x1_0000
    ensures Nibble(v) == 14 && Extension(v) == [first, second] <==>
              ReadWord(first, second, littleEndian) as int + 269 < 0x1_0000 && (littleEndian ==> first == second)
  {
    var word: nat := ReadWord(first, second, littleEndian);
    WrapsOnce(word + 269);
    if word + 269 < 0x1_0000 {
      assert v - 269 == word;
    }
  }

  lemma WritesField(nibble: nat, s: seq<byte>, k: nat, littleEndian: bool)
    requires ReadField(nibble, s, k, littleEndian).Some?
    requires k + 1 + ExtensionLength(nibble) <= |s|
    ensures var f := ReadField(nibble, s, k, littleEndian).value;
            && f.used == ExtensionLength(nibble)
            && (Nibble(f.value) == nibble && Extension(f.value) == s[k + 1..k + 1 + f.used]
                <==> FieldCanonical(nibble, s, k, littleEndian))
            && (nibble == 0 <==> f.value == 0 && nibble != 14)
  {
    var f := ReadField(nibble, s, k, littleEndian).value;
    if nibble == 14 {
      assert s[k + 1..k + 3] == [s[k + 1], s[k + 2]];
      WritesWord(s[k + 1], s[k + 2], f.value, littleEndian);
    } else if nibble == 13 {
      assert s[k + 1..k + 2] == [s[k + 1]];
    } else {
      assert s[k + 1..k + 1] == [];
    }
  }

  lemma ExtensionLengths(v: nat)
    ensures |Extension(v)| == ExtensionLength(Nibble(v))
  {
  }

  /** The delta written for a number that was read: the one read, unless the sum wrapped. */
  lemma DeltaRead(number: uint16, delta: uint16)
    ensures var d := Delta(number, (number + delta) % 0x1_0000);
            if number + delta < 0x1_0000 then d == delta else delta > 0 && Nibble(d) == 0
  {
  }

  /** The parts `ReadOption` reads. */
  lemma OptionParts(s: seq<byte>, littleEndian: bool)
    requires s != [] && ReadOption(s, littleEndian).Ok?
    ensures var at := ReadOption(s, littleEndian).value;
            var d := ReadField(s[0] / 16, s, 0, littleEndian);
            && d.Some? && at.delta == d.value.value && d.value.used == ExtensionLength(s[0] / 16)
            && var l := ReadField(s[0] % 16, s, d.value.used, littleEndian);
            && l.Some? && at.length == l.value.value && l.value.used == ExtensionLength(s[0] % 16)
            && at.start == 1 + d.value.used + l.value.used <= |s|
  {
  }

  /** The option head is written back as it was read exactly if it is canonical. */
  lemma WritesHead(s: seq<byte>, number: uint16, value: seq<byte>, littleEndian: bool)
    requires s != [] && ReadOption(s, littleEndian).Ok?
    requires |value| == ReadOption(s, littleEndian).value.length
    ensures var at := ReadOption(s, littleEndian).value;
            var head := OptionHead(number, Opt((number + at.delta) % 0x1_0000, value));
            && (head <= s <==> OptionCanonical(s, number, littleEndian))
            && (head <= s ==> |head| == at.start)
  {
    hide Nibble, Extension, ReadField, ReadOption, OptionHead, Delta, FieldCanonical, ExtensionLength;
    var at := ReadOption(s, littleEndian).value;
    var o := Opt((number + at.delta) % 0x1_0000, value);
    var head := OptionHead(number, o);
    var d := Delta(number, o.number);
    var n1, n2 := s[0] / 16, s[0] % 16;
    var u1, u2 := ExtensionLength(n1), ExtensionLength(n2);
    OptionParts(s, littleEndian);
    HeadShape(number, o);
    NibblesApart(d, |value|);
    ExtensionLengths(d);
    ExtensionLengths(|value|);
    DeltaRead(number, at.delta);
    WritesField(n1, s, 0, littleEndian);
    WritesField(n2, s, u1, littleEndian);
    var e1, e2 := s[1..1 + u1], s[1 + u1..1 + u1 + u2];
    HeadPrefix(head, s, d, |value|, e1, e2);
    ZeroNibble(n1, s, littleEndian);
  }

  /** A zero nibble is a zero delta. */
  lemma ZeroNibble(nibble: nat, s: seq<byte>, littleEndian: bool)
    ensures nibble == 0 ==> ReadField(nibble, s, 0, littleEndian) == Some(Field(0, 0))
  {
  }

  lemma HeadPrefix(head: seq<byte>, s: seq<byte>, d: nat, l: nat, e1: seq<byte>, e2: seq<byte>)
    requires s != [] && head != []
    requires head[0] == 16 * Nibble(d) + Nibble(l) && head[1..] == Extension(d) + Extension(l)
    requires |e1| == ExtensionLength(s[0] / 16) && |e2| == ExtensionLength(s[0] % 16)
    requires 1 + |e1| + |e2| <= |s|
    requires e1 == s[1..1 + |e1|] && e2 == s[1 + |e1|..1 + |e1| + |e2|]
    ensures head <= s <==> Nibble(d) == s[0] / 16 && Nibble(l) == s[0] % 16 && Extension(d) == e1 && Extension(l) == e2
    ensures head <= s ==> |head| == 1 + |e1| + |e2|
  {
    hide Nibble, Extension, ExtensionLength;
    NibblesApart(d, l);
    ExtensionLengths(d);
    ExtensionLengths(l);
    if head[0] == s[0] {
      var n := |head|;
      assert n == 1 + |e1| + |e2|;
      assert s[1..n] == e1 + e2;
      if head <= s {
        assert head[1..] == s[1..n];
        assert Extension(d) == head[1..][..|e1|] && Extension(l) == head[1..][|e1|..];
        assert e1 == s[1..n][..|e1|] && e2 == s[1..n][|e1|..];
      }
      if Extension(d) == e1 && Extension(l) == e2 {
        assert head == [head[0]] + head[1..];
        assert s[..n] == [s[0]] + s[1..n];
      }
    }
  }

  /** The options are written back as they were read exactly if they are canonical. */
  lemma {:induction false} ReencodesOptions(s: seq<byte>, number: uint16, littleEndian: bool)
    requires DecodeOptions(s, number, littleEndian).error.None?
    ensures var r := DecodeOptions(s, number, littleEndian);
            EncodeOptions(number, r.options) + r.rest == s <==> OptionsCanonical(s, number, littleEndian)
    decreases |s|
  {
    hide ReadOption, OptionHead, OptionCanonical, IsCut, DecodeOptions, EncodeOptions;
    var r := DecodeOptions(s, number, littleEndian);
    if s == [] || s[0] == PAYLOAD_MARKER {
      StopsAt(s, number, littleEndian);
      EncodesNone(number, s);
    } else {
      TakesOption(s, number, littleEndian);
      var at := ReadOption(s, littleEndian).value;
      var o := r.options[0];
      var cut := at.start + at.length;
      var tail := DecodeOptions(s[cut..], o.number, littleEndian);
      assert r.options[1..] == tail.options && r.rest == tail.rest;
      var head, again := OptionHead(number, o), EncodeOptions(o.number, tail.options) + tail.rest;
      var written := EncodeOptions(number, r.options) + r.rest;
      EncodesFirst(number, r.options, r.rest);
      WritesHead(s, number, o.value, littleEndian);
      CutPrefix(written, head, o.value, again);
      if OptionCanonical(s, number, littleEndian) {
        CanonicalNumber(s, number, littleEndian);
        ReencodesOptions(s[cut..], o.number, littleEndian);
        SameCut(written, s, head, o.value, again, cut);
      }
    }
  }

  lemma CanonicalNumber(s: seq<byte>, number: uint16, littleEndian: bool)
    requires s != [] && OptionCanonical(s, number, littleEndian)
    ensures ReadOption(s, littleEndian).Ok?
    ensures var delta := ReadOption(s, littleEndian).value.delta;
            (number + delta) % 0x1_0000 == number + delta
  {
  }

  lemma CutPrefix(s: seq<byte>, a: seq<byte>, b: seq<byte>, c: seq<byte>)
    requires IsCut(s, a, b, c)
    ensures a <= s
  {
  }

  lemma SameCut(s: seq<byte>, t: seq<byte>, a: seq<byte>, b: seq<byte>, c: seq<byte>, cut: nat)
    requires IsCut(s, a, b, c) && a <= t && cut == |a| + |b| <= |t| && b == t[|a|..cut]
    ensures s == t <==> c == t[cut..]
  {
    assert t == t[..|a|] + t[|a|..cut] + t[cut..];
    assert s == s[..|a|] + s[|a|..cut] + s[cut..];
  }

  /** An accepted byte string is what the serializer writes for its message exactly if it is canonical. */
  lemma Reencodes(b: seq<byte>, littleEndian: bool)
    requires Decode(b, littleEndian).Ok?
    ensures b != [] && HEADER_SIZE + TokenLength(b[0]) <= |b|
    ensures var m := Decode(b, littleEndian).value;
            Sendable(m) && (Encode(m, littleEndian) == b <==> Canonical(b, littleEndian))
  {
    hide DecodeOptions, EncodeOptions, OptionsCanonical;
    var m := Decode(b, littleEndian).value;
    var n := HEADER_SIZE + TokenLength(b[0]);
    var s := b[n..];
    AcceptedShape(b, littleEndian);
    var r := DecodeOptions(s, 0, littleEndian);
    var prefix, written := Prefix(m, littleEndian), EncodeOptions(0, m.options);
    ReencodesOptions(s, 0, littleEndian);
    assert Encode(m, littleEndian) == prefix + (written + EncodePayload(m.payload));
    assert b == prefix + s;
    if Encode(m, littleEndian) == b {
      RoundTrip(m, littleEndian);
    }
    if m.payload != [] {
      assert r.rest == EncodePayload(m.payload);
    }
  }

  /**
   The state after an accepted parse, whatever the state before: the payload is
   appended and the token bytes past the token length stay.
   */
  lemma AcceptedState(s: Snapshot, b: seq<byte>, littleEndian: bool)
    requires Shaped(s) && Parse(s, b, littleEndian).error.None?
    ensures b != [] && HEADER_SIZE + TokenLength(b[0]) <= |b|
    ensures var n := TokenLength(b[0]);
            var r := DecodeOptions(b[HEADER_SIZE + n..], 0, littleEndian);
            && Version(b[0]) == COAP_VERSION && n <= TOKEN_MAX_LENGTH
            && r.error.None? && r.rest != []
            && Parse(s, b, littleEndian).state ==
               Snapshot(b[0], b[1], if littleEndian then Word(b[2], b[3]) else Word(b[3], b[2]),
                        b[HEADER_SIZE..HEADER_SIZE + n] + s.token[n..], r.options,
                        |b| - |r.rest| + 1, s.payload + r.rest[1..])
  {
    hide DecodeOptions, Parse, ParseHeader, ParseToken, ParseOptions, ParsePayload, TokenLength, Version;
    AcceptedSteps(s, b, littleEndian);
    AcceptedHeader(s, b, littleEndian);
    var s1 := ParseHeader(s, b, littleEndian).state;
    AcceptedToken(s1, b);
    var s2 := ParseToken(s1, b).state;
    AcceptedBody(s2, b, littleEndian);
  }

  lemma AcceptedSteps(s: Snapshot, b: seq<byte>, littleEndian: bool)
    requires Shaped(s) && Parse(s, b, littleEndian).error.None?
    ensures ParseHeader(s, b, littleEndian).error.None?
    ensures var s1 := ParseHeader(s, b, littleEndian).state;
            && ParseToken(s1, b).error.None?
            && var s2 := ParseToken(s1, b).state;
            && HEADER_SIZE + TokenLength(s2.header) <= |b|
            && ParseOptions(s2, b, littleEndian).error.None?
            && Parse(s, b, littleEndian) == ParsePayload(ParseOptions(s2, b, littleEndian).state, b)
  {
    hide DecodeOptions, ParseHeader, ParseToken, ParseOptions, ParsePayload;
  }

  lemma AcceptedHeader(s: Snapshot, b: seq<byte>, littleEndian: bool)
    requires Shaped(s) && ParseHeader(s, b, littleEndian).error.None?
    ensures HEADER_SIZE <= |b| && Version(b[0]) == COAP_VERSION
    ensures ParseHeader(s, b, littleEndian).state ==
            s.(header := b[0], code := b[1],
               identity := if littleEndian then Word(b[2], b[3]) else Word(b[3], b[2]))
  {
  }

  lemma AcceptedToken(s: Snapshot, b: seq<byte>)
    requires Shaped(s) && ParseToken(s, b).error.None?
    ensures var n := TokenLength(s.header);
            && n <= TOKEN_MAX_LENGTH && HEADER_SIZE + n <= |b|
            && ParseToken(s, b).state == s.(token := b[HEADER_SIZE..HEADER_SIZE + n] + s.token[n..])
  {
  }

  lemma AcceptedBody(s: Snapshot, b: seq<byte>, littleEndian: bool)
    requires Shaped(s) && HEADER_SIZE + TokenLength(s.header) <= |b|
    requires ParseOptions(s, b, littleEndian).error.None?
    requires ParsePayload(ParseOptions(s, b, littleEndian).state, b).error.None?
    ensures var r := DecodeOptions(b[HEADER_SIZE + TokenLength(s.header)..], 0, littleEndian);
            && r.error.None? && r.rest != []
            && ParsePayload(ParseOptions(s, b, littleEndian).state, b).state ==
               s.(options := r.options, payloadOffset := |b| - |r.rest| + 1, payload := s.payload + r.rest[1..])
  {
    var n := HEADER_SIZE + TokenLength(s.header);
    hide DecodeOptions, TokenLength, ParsePayload;
    var r := DecodeOptions(b[n..], 0, littleEndian);
    var s3 := ParseOptions(s, b, littleEndian).state;
    assert s3 == s.(options := r.options, payloadOffset := |b| - |r.rest| + 1);
    RestIsSuffix(b[n..], 0, littleEndian);
    SuffixOf(b, n, r.rest);
    PayloadRead(s3, b, r.rest);
  }

  /** What is left is the end of what was read, and starts with the marker unless it is empty. */
  lemma {:induction false} RestIsSuffix(s: seq<byte>, number: uint16, littleEndian: bool)
    ensures var r := DecodeOptions(s, number, littleEndian);
            && s[|s| - |r.rest|..] == r.rest
            && (r.error.None? ==> r.rest == [] || r.rest[0] == PAYLOAD_MARKER)
    decreases |s|
  {
    hide ReadOption, DecodeOptions;
    if s == [] || s[0] == PAYLOAD_MARKER {
      StopsAt(s, number, littleEndian);
    } else {
      TakesOption(s, number, littleEndian);
      match ReadOption(s, littleEndian)
      case Err(_) =>
      case Ok(at) =>
        var cut := at.start + at.length;
        var next := (number + at.delta) % 0x1_0000;
        RestIsSuffix(s[cut..], next, littleEndian);
        SuffixOf(s, cut, DecodeOptions(s[cut..], next, littleEndian).rest);
    }
  }

  lemma SuffixOf(b: seq<byte>, n: nat, rest: seq<byte>)
    requires n <= |b| && |rest| <= |b| - n && b[n..][|b| - n - |rest|..] == rest
    ensures b[|b| - |rest|..] == rest
  {
  }

  lemma PayloadRead(s: Snapshot, b: seq<byte>, rest: seq<byte>)
    requires Shaped(s) && |rest| <= |b| && b[|b| - |rest|..] == rest
    requires s.payloadOffset == |b| - |rest| + 1
    ensures ParsePayload(s, b) ==
            if rest == [] then Step(s, Some(InvalidArgument))
            else Step(s.(payload := s.payload + rest[1..]), None)
  {
    if rest != [] {
      assert rest[1..] == b[s.payloadOffset..];
    }
  }

  /** The pieces of an accepted byte string. */
  lemma AcceptedShape(b: seq<byte>, littleEndian: bool)
    requires Decode(b, littleEndian).Ok?
    ensures b != [] && HEADER_SIZE + TokenLength(b[0]) <= |b|
    ensures var m := Decode(b, littleEndian).value;
            var n := HEADER_SIZE + TokenLength(b[0]);
            var r := DecodeOptions(b[n..], 0, littleEndian);
            && m.header == b[0] && Sendable(m)
            && Prefix(m, littleEndian) == b[..n]
            && r.error.None? && r.options == m.options && r.rest == [PAYLOAD_MARKER] + m.payload
  {
    AcceptedState(Fresh, b, littleEndian);
    hide DecodeOptions, Parse, Prefix, EncodeIdentity;
    var n := TokenLength(b[0]);
    var r := DecodeOptions(b[HEADER_SIZE + n..], 0, littleEndian);
    RestIsSuffix(b[HEADER_SIZE + n..], 0, littleEndian);
    PiecesOfPrefix(b, n, Fresh.token[n..]);
    PrefixOf(Decode(b, littleEndian).value, b, n, littleEndian);
    assert Fresh.payload + r.rest[1..] == r.rest[1..];
    StartsWith(r.rest, PAYLOAD_MARKER);
  }

  lemma PrefixOf(m: Message, b: seq<byte>, n: nat, littleEndian: bool)
    requires HEADER_SIZE + n <= |b| && m.header == b[0] && m.code == b[1]
    requires m.identity == if littleEndian then Word(b[2], b[3]) else Word(b[3], b[2])
    requires m.token == b[HEADER_SIZE..HEADER_SIZE + n]
    ensures Prefix(m, littleEndian) == b[..HEADER_SIZE + n]
  {
    assert EncodeIdentity(m.identity, littleEndian) == [b[2], b[3]];
    PiecesOfPrefix(b, n, []);
  }

  lemma PiecesOfPrefix(b: seq<byte>, n: nat, padding: seq<byte>)
    requires HEADER_SIZE + n <= |b|
    ensures (b[HEADER_SIZE..HEADER_SIZE + n] + padding)[..n] == b[HEADER_SIZE..HEADER_SIZE + n]
    ensures b[..HEADER_SIZE + n] == [b[0], b[1]] + [b[2], b[3]] + b[HEADER_SIZE..HEADER_SIZE + n]
  {
  }

  lemma StartsWith(s: seq<byte>, first: byte)
    requires s != [] && s[0] == first
    ensures s == [first] + s[1..]
  {
  }

  // ------------------------------------------------ the partition of a buffer

  /** The bytes of one option as they were read. */
  datatype Raw = Raw(head: seq<byte>, delta: uint16, value: seq<byte>)

  function Raws(s: seq<byte>, littleEndian: bool): seq<Raw>
    decreases |s|
  {
    if s == [] || s[0] == PAYLOAD_MARKER then []
    else
      match ReadOption(s, littleEndian)
      case Err(_) => []
      case Ok(at) =>
        [Raw(s[..at.start], at.delta, s[at.start..at.start + at.length])]
        + Raws(s[at.start + at.length..], littleEndian)
  }

  function RawBytes(raws: seq<Raw>): seq<byte> {
    if raws == [] then [] else raws[0].head + raws[0].value + RawBytes(raws[1..])
  }

  function DeltaSum(raws: seq<Raw>): nat {
    if raws == [] then 0 else raws[0].delta + DeltaSum(raws[1..])
  }

  /** Each option has the bytes that were read, under the running sum of the deltas. */
  predicate Numbered(options: seq<Opt>, raws: seq<Raw>, number: nat) {
    && |raws| == |options|
    && forall i :: 0 <= i < |raws| ==>
         options[i] == Opt((number + DeltaSum(raws[..i + 1])) % 0x1_0000, raws[i].value)
  }

  lemma {:induction false} OptionsPartition(s: seq<byte>, number: uint16, littleEndian: bool)
    requires DecodeOptions(s, number, littleEndian).error.None?
    ensures var r, raws := DecodeOptions(s, number, littleEndian), Raws(s, littleEndian);
            s == RawBytes(raws) + r.rest && Numbered(r.options, raws, number)
    decreases |s|
  {
    hide ReadOption, DecodeOptions, Raws, RawBytes, DeltaSum, Numbered;
    var r, raws := DecodeOptions(s, number, littleEndian), Raws(s, littleEndian);
    RawsFirst(s, littleEndian);
    if s == [] || s[0] == PAYLOAD_MARKER {
      StopsAt(s, number, littleEndian);
      NoneNumbered(number);
    } else {
      TakesOption(s, number, littleEndian);
      var at := ReadOption(s, littleEndian).value;
      var cut, next := at.start + at.length, (number + at.delta) % 0x1_0000;
      var tail, rest := DecodeOptions(s[cut..], next, littleEndian), Raws(s[cut..], littleEndian);
      OptionsPartition(s[cut..], next, littleEndian);
      var o, raw := r.options[0], raws[0];
      assert raws == [raw] + rest && r.options == [o] + tail.options;
      ThreePieces(s, at.start, cut);
      SumsFollow(number, raw, o, rest, tail.options);
      RawBytesFollow(raw, rest, s[cut..], r.rest);
    }
  }

  lemma RawsFirst(s: seq<byte>, littleEndian: bool)
    ensures s == [] || s[0] == PAYLOAD_MARKER ==> Raws(s, littleEndian) == [] && RawBytes([]) == []
    ensures s != [] && s[0] != PAYLOAD_MARKER && ReadOption(s, littleEndian).Ok? ==>
              var at := ReadOption(s, littleEndian).value;
              Raws(s, littleEndian) == [Raw(s[..at.start], at.delta, s[at.start..at.start + at.length])]
                                       + Raws(s[at.start + at.length..], littleEndian)
  {
  }

  lemma ThreePieces(s: seq<byte>, i: nat, j: nat)
    requires i <= j <= |s|
    ensures s == s[..i] + s[i..j] + s[j..]
  {
  }

  lemma RawBytesFollow(raw: Raw, raws: seq<Raw>, s: seq<byte>, rest: seq<byte>)
    requires s == RawBytes(raws) + rest
    ensures raw.head + raw.value + s == RawBytes([raw] + raws) + rest
  {
    assert ([raw] + raws)[1..] == raws;
  }

  lemma NoneNumbered(number: nat)
    ensures Numbered([], [], number)
  {
  }

  lemma SumsFollow(number: uint16, raw: Raw, o: Opt, raws: seq<Raw>, options: seq<Opt>)
    requires o == Opt((number + raw.delta) % 0x1_0000, raw.value)
    requires Numbered(options, raws, o.number)
    ensures Numbered([o] + options, [raw] + raws, number)
  {
    forall i | 0 <= i < |raws| + 1
      ensures ([o] + options)[i] ==
              Opt((number + DeltaSum(([raw] + raws)[..i + 1])) % 0x1_0000, ([raw] + raws)[i].value)
    {
      assert ([raw] + raws)[..i + 1] == [raw] + raws[..i];
      assert ([raw] + raws[..i])[1..] == raws[..i];
      if i > 0 {
        SumWraps(number, raw.delta, DeltaSum(raws[..i]));
      } else {
        assert raws[..0] == [];
      }
    }
  }

  lemma SumWraps(a: nat, b: nat, c: nat)
    ensures ((a + b) % 0x1_0000 + c) % 0x1_0000 == (a + b + c) % 0x1_0000
  {
  }

  /**
   Header, token, options, marker and payload of an accepted buffer are its consecutive
   pieces, and each option number is the sum of the deltas so far.
   */
  lemma AcceptedPartition(b: seq<byte>, littleEndian: bool)
    requires Decode(b, littleEndian).Ok?
    ensures b != [] && HEADER_SIZE + TokenLength(b[0]) <= |b|
    ensures var m := Decode(b, littleEndian).value;
            var raws := Raws(b[HEADER_SIZE + TokenLength(b[0])..], littleEndian);
            && b == [m.header, m.code] + EncodeIdentity(m.identity, littleEndian) + m.token
                    + RawBytes(raws) + [PAYLOAD_MARKER] + m.payload
            && Numbered(m.options, raws, 0)
  {
    hide ReadOption, DecodeOptions, Decode, Raws, EncodeIdentity, Numbered;
    AcceptedShape(b, littleEndian);
    var m, n := Decode(b, littleEndian).value, HEADER_SIZE + TokenLength(b[0]);
    OptionsPartition(b[n..], 0, littleEndian);
    assert b == b[..n] + b[n..];
  }
}
