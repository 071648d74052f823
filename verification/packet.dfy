/**
 The packet: its fields, the parser that reads a caller's buffer through a moving
 offset, and the two-pass serializer. Each method is proved against the functions
 of `CoapWire`.
 */
module PacketClass {
  import opened Bytes
  import opened CoapWire
  import opened CoapRoundTrip
  import opened CoapOptions
  import opened CoapSerialize

  /** What the extension at `offset` holds, read from memory that goes on past `size`. */
  method ParseOption(buffer: array<byte>, size: nat, nibble: nat, offset: nat, littleEndian: bool, ghost start: nat)
      returns (ok: bool, value: uint16, next: nat)
    requires start <= offset <= size < buffer.Length && nibble < 16
    ensures var s, k := buffer[start..size], offset - start;
            && ok == ReadField(nibble, s, k, littleEndian).Some?
            && (ok ==> next == offset + ReadField(nibble, s, k, littleEndian).value.used <= size)
            && (ok && next < size ==> value == ReadField(nibble, s, k, littleEndian).value.value)
  {
    ok, value, next := true, nibble, offset;
    if nibble == 13 {
      if offset + 1 > size {
        return false, value, offset;
      }
      var extension: int := buffer[offset + 1];
      value := extension + 13;
      next := offset + 1;
    } else if nibble == 14 {
      if offset + 2 > size {
        return false, value, offset;
      }
      value := ReadWord(buffer[offset + 1], buffer[offset + 2], littleEndian);
      value := (value + 269) % 0x1_0000;
      next := offset + 2;
    } else if nibble == 15 {
      return false, value, offset;
    }
  }

  /** The head of the option at `offset`. */
  method ReadOptionAt(buffer: array<byte>, size: nat, offset: nat, littleEndian: bool) returns (at: Result<OptionAt>)
    requires offset < size < buffer.Length
    ensures at == ReadOption(buffer[offset..size], littleEndian)
  {
    hide ReadField;
    var deltaOk, delta, afterDelta := ParseOption(buffer, size, buffer[offset] / 16, offset, littleEndian, offset);
    if !deltaOk {
      return Err(OptionDelta);
    }
    var lengthOk, length, next := ParseOption(buffer, size, buffer[offset] % 16, afterDelta, littleEndian, offset);
    if !lengthOk {
      return Err(OptionLength);
    }
    next := next + 1;
    if next + length > size {
      return Err(OptionLength);
    }
    at := Ok(OptionAt(delta, next - offset, length));
  }

  /** The option value, byte by byte. */
  method ReadValue(buffer: array<byte>, from: nat, length: nat) returns (value: seq<byte>)
    requires from + length <= buffer.Length
    ensures value == buffer[from..from + length]
  {
    value := [];
    for i := 0 to length
      invariant value == buffer[from..from + i]
    {
      value := value + [buffer[from + i]];
    }
  }

  /** One turn of the option loop: the option at `offset` and the position after it. */
  method ParseNext(buffer: array<byte>, size: nat, offset: nat, number: uint16, littleEndian: bool)
      returns (error: Option<Error>, o: Opt, next: nat)
    requires offset < size < buffer.Length && buffer[offset] != PAYLOAD_MARKER
    ensures error.None? ==> offset < next <= size
    ensures DecodeOptions(buffer[offset..size], number, littleEndian) ==
              if error.Some? then OptionsRead([], buffer[offset..size], error)
              else
                var tail := DecodeOptions(buffer[next..size], o.number, littleEndian);
                OptionsRead([o] + tail.options, tail.rest, tail.error)
  {
    hide DecodeOptions, ReadOption;
    error, o, next := None, Opt(0, []), offset;
    TakesOptionAt(buffer[..], offset, size, number, littleEndian);
    var at := ReadOptionAt(buffer, size, offset, littleEndian);
    if at.Err? {
      return Some(at.error), o, next;
    }
    var from := offset + at.value.start;
    var value := ReadValue(buffer, from, at.value.length);
    next := from + at.value.length;
    o := Opt((number + at.value.delta) % 0x1_0000, value);
  }

  lemma SlicesOfSlice(b: seq<byte>, low: nat, high: nat, from: nat, to: nat)
    requires low + to <= high <= |b| && from <= to
    ensures b[low..high][from..to] == b[low + from..low + to]
    ensures b[low..high][to..] == b[low + to..high]
  {
    var s := b[low..high];
    forall i | 0 <= i < to - from ensures s[from..to][i] == b[low + from..low + to][i] {}
    forall i | 0 <= i < high - low - to ensures s[to..][i] == b[low + to..high][i] {}
  }

  /** One turn of the option loop, by positions in the buffer. */
  lemma TakesOptionAt(b: seq<byte>, offset: nat, size: nat, number: uint16, littleEndian: bool)
    requires offset < size <= |b| && b[offset] != PAYLOAD_MARKER
    ensures DecodeOptions(b[offset..size], number, littleEndian) ==
              match ReadOption(b[offset..size], littleEndian)
              case Err(e) => OptionsRead([], b[offset..size], Some(e))
              case Ok(at) =>
                var o := Opt((number + at.delta) % 0x1_0000,
                             b[offset + at.start..offset + at.start + at.length]);
                var tail := DecodeOptions(b[offset + at.start + at.length..size], o.number, littleEndian);
                OptionsRead([o] + tail.options, tail.rest, tail.error)
  {
    hide DecodeOptions, ReadOption;
    var s := b[offset..size];
    TakesOption(s, number, littleEndian);
    match ReadOption(s, littleEndian)
    case Err(_) =>
    case Ok(at) => SlicesOfSlice(b, offset, size, at.start, at.start + at.length);
  }

  /** Reading `whole` has given `done` so far and `left` is what remains to be read. */
  ghost predicate Continues(whole: OptionsRead, done: seq<Opt>, left: OptionsRead) {
    whole == OptionsRead(done + left.options, left.rest, left.error)
  }

  lemma ContinuesFrom(whole: OptionsRead)
    ensures Continues(whole, [], whole)
  {
  }

  lemma ContinuesTo(whole: OptionsRead, done: seq<Opt>, left: OptionsRead)
    requires Continues(whole, done, left) && left.options == []
    ensures whole == OptionsRead(done, left.rest, left.error)
  {
  }

  lemma ContinuesWith(whole: OptionsRead, done: seq<Opt>, o: Opt, left: OptionsRead)
    requires Continues(whole, done, OptionsRead([o] + left.options, left.rest, left.error))
    ensures Continues(whole, done + [o], left)
  {
    assert done + ([o] + left.options) == done + [o] + left.options;
  }

  /** Two sequences with the same end from `n` on have the same end from any later position on. */
  lemma TailOfTail(a: seq<byte>, b: seq<byte>, n: nat, m: nat)
    requires n <= m <= |a| == |b| && a[n..] == b[n..]
    ensures a[m..] == b[m..]
  {
    forall i | m <= i < |a| ensures a[i] == b[i] {
      assert a[n..][i - n] == b[n..][i - n];
    }
  }

  lemma KeepsTail(a: seq<byte>, b: seq<byte>, n: nat, m: nat)
    requires 0 < n <= m <= |a| == |b| && a == b[n - 1 := a[n - 1]]
    ensures a[m..] == b[m..]
  {
  }

  /** Writes `data` at `offset`. */
  method CopyInto(buffer: array<byte>, offset: nat, data: seq<byte>)
    requires offset + |data| <= buffer.Length
    modifies buffer
    ensures buffer[..offset + |data|] == old(buffer[..offset]) + data
    ensures buffer[offset + |data|..] == old(buffer[offset + |data|..])
  {
    forall i | 0 <= i < |data| {
      buffer[offset + i] := data[i];
    }
  }

  /** The extension bytes of a field, or only their number in a dry run. */
  method MakeOption(buffer: array?<byte>, size: nat, offset: nat, value: nat, checkBufferSizeOnly: bool)
      returns (error: Option<Error>, next: nat)
    requires checkBufferSizeOnly || (buffer != null && offset + |Extension(value)| <= buffer.Length)
    modifies buffer
    ensures next == offset + |Extension(value)|
    ensures error == if !checkBufferSizeOnly && next >= size then Some(BufferTooSmall) else None
    ensures checkBufferSizeOnly && buffer != null ==> buffer[..] == old(buffer[..])
    ensures !checkBufferSizeOnly ==>
              && buffer[..next] == old(buffer[..offset]) + Extension(value)
              && buffer[next..] == old(buffer[next..])
  {
    next := offset;
    if Nibble(value) == 13 {
      if !checkBufferSizeOnly {
        buffer[next] := value - 13;
      }
      next := next + 1;
    } else if Nibble(value) == 14 {
      if !checkBufferSizeOnly {
        buffer[next] := (value - 269) / 256;
        buffer[next + 1] := (value - 269) % 256;
      }
      next := next + 2;
    }
    error := if !checkBufferSizeOnly && next >= size then Some(BufferTooSmall) else None;
  }

  /** Up to `reach` the memory holds `done` and then the start of `text`. */
  ghost predicate Starts(memory: seq<byte>, reach: nat, done: seq<byte>, text: seq<byte>) {
    && |done| <= reach <= |done| + |text| && reach <= |memory|
    && memory[..reach] == done + text[..reach - |done|]
  }

  lemma StartsWhole(memory: seq<byte>, reach: nat, done: seq<byte>, text: seq<byte>)
    requires reach == |done| + |text| <= |memory|
    ensures Starts(memory, reach, done, text) <==> memory[..reach] == done + text
  {
    assert text[..|text|] == text;
  }

  lemma StartsLonger(memory: seq<byte>, reach: nat, done: seq<byte>, text: seq<byte>, more: seq<byte>)
    requires Starts(memory, reach, done, text)
    ensures Starts(memory, reach, done, text + more)
  {
    assert (text + more)[..reach - |done|] == text[..reach - |done|];
  }

  lemma StartsEarlier(memory: seq<byte>, reach: nat, a: seq<byte>, b: seq<byte>, text: seq<byte>)
    requires Starts(memory, reach, a + b, text)
    ensures Starts(memory, reach, a, b + text)
  {
    var n := reach - |a|;
    assert (b + text)[..n] == b + text[..n - |b|];
    assert a + b + text[..n - |b|] == a + (b + text[..n - |b|]);
  }

  lemma StartOfText(memory: seq<byte>, reach: nat, done: seq<byte>, text: seq<byte>)
    requires Starts(memory, reach, done, text)
    ensures reach <= |memory| && reach <= |done + text| && memory[..reach] == (done + text)[..reach]
  {
  }

  /** The header byte and the extensions of an option. */
  method WriteOptionHead(buffer: array?<byte>, size: nat, offset: nat, previous: uint16, o: Opt,
                         checkBufferSizeOnly: bool)
      returns (error: Option<Error>, next: nat)
    requires checkBufferSizeOnly || (buffer != null && HeadReach(offset, size, previous, o) <= buffer.Length)
    modifies buffer
    ensures error.None? ==> next == offset + |OptionHead(previous, o)|
    ensures error == if !checkBufferSizeOnly && offset + |OptionHead(previous, o)| >= size
                     then Some(BufferTooSmall) else None
    ensures checkBufferSizeOnly && buffer != null ==> buffer[..] == old(buffer[..])
    ensures !checkBufferSizeOnly ==>
              var reach := HeadReach(offset, size, previous, o);
              && (error.None? ==> next == reach)
              && Starts(buffer[..], reach, old(buffer[..offset]), OptionHead(previous, o))
              && buffer[reach..] == old(buffer[reach..])
  {
    hide Extension, Delta, Nibble, OptionHead, Starts;
    var delta, length := Delta(previous, o.number), |o.value|;
    HeadShape(previous, o);
    NibblesApart(delta, length);
    ghost var head, reach := OptionHead(previous, o), HeadReach(offset, size, previous, o);
    ghost var before := if buffer != null then buffer[..] else [];
    next := offset;
    if !checkBufferSizeOnly && next > size {
      NothingWritten(before, offset, head);
      return Some(BufferTooSmall), next;
    }
    if !checkBufferSizeOnly {
      buffer[next] := 16 * Nibble(delta) + Nibble(length);
      assert buffer[..next + 1] == before[..offset] + [head[0]];
      KeepsTail(buffer[..], before, next + 1, reach);
      HeadByteWritten(buffer[..], before[..offset], head);
    }
    next := next + 1;
    if !checkBufferSizeOnly && next > size {
      return Some(BufferTooSmall), next;
    }
    ghost var before1 := if buffer != null then buffer[..] else [];
    error, next := MakeOption(buffer, size, next, delta, checkBufferSizeOnly);
    if !checkBufferSizeOnly {
      TailOfTail(buffer[..], before1, next, reach);
      DeltaWritten(buffer[..], before[..offset], head, Extension(delta), Extension(length));
    }
    if error.Some? { return; }
    ghost var before2 := if buffer != null then buffer[..] else [];
    error, next := MakeOption(buffer, size, next, length, checkBufferSizeOnly);
    if !checkBufferSizeOnly {
      TailOfTail(buffer[..], before2, next, reach);
      LengthWritten(buffer[..], before[..offset], head, Extension(delta), Extension(length));
    }
  }

  lemma NothingWritten(memory: seq<byte>, offset: nat, text: seq<byte>)
    requires offset <= |memory|
    ensures Starts(memory, offset, memory[..offset], text)
  {
    assert memory[..offset] + text[..0] == memory[..offset];
  }

  /** The three points up to which the head of an option may have been written. */
  lemma HeadByteWritten(memory: seq<byte>, done: seq<byte>, head: seq<byte>)
    requires head != [] && |done| + 1 <= |memory| && memory[..|done| + 1] == done + [head[0]]
    ensures Starts(memory, |done| + 1, done, head)
  {
    assert head[..1] == [head[0]];
  }

  lemma DeltaWritten(memory: seq<byte>, done: seq<byte>, head: seq<byte>, delta: seq<byte>, length: seq<byte>)
    requires head != [] && head[1..] == delta + length && |done| + 1 + |delta| <= |memory|
    requires memory[..|done| + 1 + |delta|] == done + [head[0]] + delta
    ensures Starts(memory, |done| + 1 + |delta|, done, head)
  {
    assert head[..1 + |delta|] == [head[0]] + delta;
    Regrouped(done, [head[0]], delta);
  }

  lemma LengthWritten(memory: seq<byte>, done: seq<byte>, head: seq<byte>, delta: seq<byte>, length: seq<byte>)
    requires head != [] && head[1..] == delta + length && |done| + |head| <= |memory|
    requires memory[..|done| + |head|] == done + [head[0]] + delta + length
    ensures Starts(memory, |done| + |head|, done, head)
  {
    hide Starts;
    assert head == [head[0]] + delta + length;
    Regrouped(done, [head[0]], delta);
    Regrouped(done, [head[0]] + delta, length);
    StartsWhole(memory, |done| + |head|, done, head);
  }

  /** One turn of the serializer's option loop, in memory that holds what it writes. */
  method WriteOption(buffer: array?<byte>, size: nat, offset: nat, previous: uint16, o: Opt, checkBufferSizeOnly: bool)
      returns (error: Option<Error>, next: nat)
    requires checkBufferSizeOnly || (buffer != null && OptionReach(offset, size, previous, o) <= buffer.Length)
    modifies buffer
    ensures error.None? ==> next == offset + |OptionHead(previous, o)| + |o.value|
    ensures error == if !checkBufferSizeOnly && !OptionFits(offset, size, previous, o)
                     then Some(BufferTooSmall) else None
    ensures checkBufferSizeOnly && buffer != null ==> buffer[..] == old(buffer[..])
    ensures !checkBufferSizeOnly ==>
              var reach := OptionReach(offset, size, previous, o);
              && (error.None? ==> reach == next)
              && Starts(buffer[..], reach, old(buffer[..offset]), OptionHead(previous, o) + o.value)
              && buffer[reach..] == old(buffer[reach..])
  {
    hide OptionHead, Starts;
    HeadLength(previous, o);
    hide Extension;
    ghost var before, head := if buffer != null then buffer[..] else [], OptionHead(previous, o);
    error, next := WriteOptionHead(buffer, size, offset, previous, o, checkBufferSizeOnly);
    if error.Some? {
      StartsLonger(buffer[..], HeadReach(offset, size, previous, o), before[..offset], head, o.value);
      return;
    }
    if !checkBufferSizeOnly {
      StartsWhole(buffer[..], next, before[..offset], head);
      TailOfTail(buffer[..], before, next, next + |o.value|);
      CopyInto(buffer, next, o.value);
      assert buffer[next + |o.value|..] == before[next + |o.value|..];
      Regrouped(before[..offset], head, o.value);
      StartsWhole(buffer[..], next + |o.value|, before[..offset], head + o.value);
    }
    next := next + |o.value|;
    if !checkBufferSizeOnly && next > size {
      return Some(BufferTooSmall), next;
    }
  }

  lemma Regrouped(a: seq<byte>, b: seq<byte>, c: seq<byte>)
    ensures a + b + c == a + (b + c)
  {
  }

  /** One turn of the option loop, as far as it writes. */
  lemma ReachNext(offset: nat, size: nat, previous: uint16, options: seq<Opt>)
    requires options != []
    ensures var o := options[0];
            && offset <= OptionReach(offset, size, previous, o)
            && OptionsReach(offset, size, previous, options) ==
               (if OptionFits(offset, size, previous, o) then
                  OptionsReach(offset + |OptionHead(previous, o)| + |o.value|, size, o.number, options[1..])
                else OptionReach(offset, size, previous, o))
            && OptionReach(offset, size, previous, o) <= OptionsReach(offset, size, previous, options)
  {
    hide OptionHead, Extension;
    var o := options[0];
    HeadLength(previous, o);
    if OptionFits(offset, size, previous, o) {
      OptionsReachGrows(offset + |OptionHead(previous, o)| + |o.value|, size, o.number, options[1..]);
    }
  }

  lemma {:induction false} OptionsReachGrows(offset: nat, size: nat, previous: uint16, options: seq<Opt>)
    ensures offset <= OptionsReach(offset, size, previous, options)
    decreases |options|
  {
    hide OptionHead, Extension;
    if options != [] {
      var o := options[0];
      HeadLength(previous, o);
      OptionsReachGrows(offset + |OptionHead(previous, o)| + |o.value|, size, o.number, options[1..]);
    }
  }

  lemma FittingOption(offset: nat, size: nat, previous: uint16, o: Opt)
    requires OptionFits(offset, size, previous, o)
    ensures offset + |OptionHead(previous, o)| + |o.value| <= size
    ensures o.value == [] ==> offset + |OptionHead(previous, o)| + |o.value| < size
  {
    hide OptionHead;
  }

  lemma MarkedPayload(s: seq<byte>, payload: seq<byte>)
    requires payload != []
    ensures s + [PAYLOAD_MARKER] + payload == s + EncodePayload(payload)
    ensures |EncodePayload(payload)| == 1 + |payload|
  {
  }

  /** Version and kind stay when the token length is set. */
  lemma HeaderBits(kind: nat, low: nat, length: nat)
    requires kind < 4 && low < 16 && length <= TOKEN_MAX_LENGTH
    ensures var header := (64 * COAP_VERSION + 16 * kind + low) / 16 * 16 + length;
            && header < 256
            && Version(header) == COAP_VERSION && header / 16 % 4 == kind && TokenLength(header) == length
  {
    assert (64 + 16 * kind + low) / 16 == 4 + kind;
  }

  lemma MarkerWritten(memory: seq<byte>, done: seq<byte>, payload: seq<byte>)
    requires payload != [] && |done| + 1 <= |memory| && memory[..|done| + 1] == done + [PAYLOAD_MARKER]
    ensures Starts(memory, |done| + 1, done, EncodePayload(payload))
  {
    assert EncodePayload(payload)[..1] == [PAYLOAD_MARKER];
  }

  predicate BodyRefused(start: nat, size: nat, options: seq<Opt>, payload: seq<byte>) {
    var end := start + |EncodeOptions(0, options)|;
    OptionsRefused(end, size, options) || end + |EncodePayload(payload)| > size
  }

  /** The body starts where the options start, and goes at least as far as they do. */
  lemma BodyReaches(start: nat, size: nat, options: seq<Opt>, payload: seq<byte>)
    requires start <= size
    ensures start <= OptionsReach(start, size, 0, options) <= BodyReach(start, size, options, payload)
    ensures var end := start + |EncodeOptions(0, options)|;
            BodyReach(start, size, options, payload) ==
              if OptionsRefused(end, size, options) then OptionsReach(start, size, 0, options)
              else PayloadReach(end, size, payload)
  {
    hide OptionHead, EncodeOptions, OptionsReach;
    OptionsReachGrows(start, size, 0, options);
    OptionsReachInside(start, size, 0, options);
  }

  /** The two ways the body may end, once the options are refused or not. */
  lemma BodyCases(start: nat, size: nat, options: seq<Opt>, payload: seq<byte>)
    ensures var end := start + |EncodeOptions(0, options)|;
            if OptionsRefused(end, size, options) then
              BodyRefused(start, size, options, payload)
              && BodyReach(start, size, options, payload) == OptionsReach(start, size, 0, options)
            else
              && end <= size
              && (BodyRefused(start, size, options, payload) <==> end + |EncodePayload(payload)| > size)
              && BodyReach(start, size, options, payload) == PayloadReach(end, size, payload)
              && (!BodyRefused(start, size, options, payload) ==>
                    PayloadReach(end, size, payload) == end + |EncodePayload(payload)|)
  {
    hide EncodeOptions, OptionsReach;
  }

  lemma BodyRefusedIs(m: Message, size: nat, littleEndian: bool)
    requires Sendable(m) && HEADER_SIZE + |m.token| <= size
    ensures BodyRefused(HEADER_SIZE + |m.token|, size, m.options, m.payload) <==>
            SerializeError(m, size, littleEndian) == Some(BufferTooSmall)
    ensures SerializeError(m, size, littleEndian) in {Some(BufferTooSmall), None}
  {
    hide OptionHead, EncodeOptions, Prefix, Encode;
    EncodesPieces(m, littleEndian);
  }

  lemma NothingEncoded(options: seq<Opt>)
    ensures options[..0] == [] && EncodeOptions(0, options[..0]) == []
  {
    assert options[..0] == [];
  }

  /** The memory and the offset after `i` options of the real pass, and how far the rest will write. */
  ghost predicate Progress(memory: seq<byte>, original: seq<byte>, prefix: seq<byte>, options: seq<Opt>,
                           size: nat, start: nat, i: nat, offset: nat, previous: uint16)
  {
    var reach := OptionsReach(start, size, 0, options);
    && i <= |options| && previous == LastNumber(0, options[..i])
    && offset == start + |EncodeOptions(0, options[..i])| <= size
    && reach == OptionsReach(offset, size, previous, options[i..])
    && offset <= reach <= |memory| == |original|
    && memory[..offset] == prefix + EncodeOptions(0, options[..i])
    && memory[reach..] == original[reach..]
    && (i > 0 && options[i - 1].value == [] ==> offset < size)
  }

  lemma ProgressStart(memory: seq<byte>, prefix: seq<byte>, options: seq<Opt>, size: nat, start: nat)
    requires start <= size && start <= |memory| && memory[..start] == prefix
    requires OptionsReach(start, size, 0, options) <= |memory|
    ensures Progress(memory, memory, prefix, options, size, start, 0, start, 0)
  {
    hide OptionsReach;
    OptionsReachGrows(start, size, 0, options);
    NothingEncoded(options);
    assert options[0..] == options;
  }

  lemma ProgressRoom(memory: seq<byte>, original: seq<byte>, prefix: seq<byte>, options: seq<Opt>,
                     size: nat, start: nat, i: nat, offset: nat, previous: uint16)
    requires Progress(memory, original, prefix, options, size, start, i, offset, previous) && i < |options|
    ensures offset <= OptionReach(offset, size, previous, options[i])
                   <= OptionsReach(start, size, 0, options) <= |memory|
  {
    hide OptionsReach, OptionReach, OptionHead, EncodeOptions;
    assert options[i..][0] == options[i];
    ReachNext(offset, size, previous, options[i..]);
  }

  /** The part of an option that is written, as a part of the whole list's encoding. */
  lemma StopsWithin(memory: seq<byte>, prefix: seq<byte>, options: seq<Opt>, i: nat, reach: nat)
    requires i < |options|
    requires Starts(memory, reach, prefix + EncodeOptions(0, options[..i]),
                    OptionHead(LastNumber(0, options[..i]), options[i]) + options[i].value)
    ensures Starts(memory, reach, prefix, EncodeOptions(0, options))
  {
    hide Starts, EncodeOptions, OptionHead;
    var done, last := EncodeOptions(0, options[..i]), LastNumber(0, options[..i]);
    var head, value := OptionHead(last, options[i]), options[i].value;
    var rest := EncodeOptions(options[i].number, options[i + 1..]);
    StartsLonger(memory, reach, prefix + done, head + value, rest);
    StartsEarlier(memory, reach, prefix, done, head + value + rest);
    EncodesAround(options, i);
    Regrouped(done, head, value);
    Regrouped(done, head + value, rest);
  }

  /** The encoding before, of and behind one option. */
  lemma EncodesAround(options: seq<Opt>, i: nat)
    requires i < |options|
    ensures var o := options[i];
            EncodeOptions(0, options) ==
              EncodeOptions(0, options[..i]) + OptionHead(LastNumber(0, options[..i]), o) + o.value
              + EncodeOptions(o.number, options[i + 1..])
  {
    hide EncodeOptions, OptionHead, LastNumber;
    EncodesNext(options, i);
    LastTaken(options, i);
    EncodesConcatenation(0, options[..i + 1], options[i + 1..]);
  }

  lemma LastTaken(options: seq<Opt>, i: nat)
    requires i < |options|
    ensures LastNumber(0, options[..i + 1]) == options[i].number
    ensures options == options[..i + 1] + options[i + 1..]
  {
    assert options[..i + 1][i] == options[i];
  }

  /** An option that does not fit: nothing is written behind the reach, and the list is refused. */
  lemma ProgressStops(before: seq<byte>, after: seq<byte>, original: seq<byte>, prefix: seq<byte>, options: seq<Opt>,
                      size: nat, start: nat, i: nat, offset: nat, previous: uint16)
    requires Progress(before, original, prefix, options, size, start, i, offset, previous) && i < |options|
    requires !OptionFits(offset, size, previous, options[i])
    requires OptionReach(offset, size, previous, options[i]) <= |after| == |before|
    requires var r := OptionReach(offset, size, previous, options[i]); after[r..] == before[r..]
    requires offset <= |before|
    requires Starts(after, OptionReach(offset, size, previous, options[i]), before[..offset],
                    OptionHead(previous, options[i]) + options[i].value)
    ensures OptionsRefused(start + |EncodeOptions(0, options)|, size, options)
    ensures var reach := OptionsReach(start, size, 0, options);
            && reach <= |after| == |original| && after[reach..] == original[reach..]
            && Starts(after, reach, prefix, EncodeOptions(0, options))
  {
    hide OptionsReach, OptionReach, OptionHead, EncodeOptions, OptionFits, OptionsRefused, Starts;
    ProgressRoom(before, original, prefix, options, size, start, i, offset, previous);
    StopsWithin(after, prefix, options, i, OptionReach(offset, size, previous, options[i]));
    assert options[i..][0] == options[i];
    ReachNext(offset, size, previous, options[i..]);
    TailOfTail(after, before, OptionReach(offset, size, previous, options[i]), OptionsReach(start, size, 0, options));
    Refuses(options, start, size, i);
  }

  /** An option that fits. */
  lemma ProgressNext(before: seq<byte>, after: seq<byte>, original: seq<byte>, prefix: seq<byte>, options: seq<Opt>,
                     size: nat, start: nat, i: nat, offset: nat, previous: uint16)
    requires Progress(before, original, prefix, options, size, start, i, offset, previous) && i < |options|
    requires OptionFits(offset, size, previous, options[i])
    requires var o := options[i];
             var next := offset + |OptionHead(previous, o)| + |o.value|;
             && offset <= |before| && OptionReach(offset, size, previous, o) == next <= |after| == |before|
             && Starts(after, next, before[..offset], OptionHead(previous, o) + o.value)
             && after[next..] == before[next..]
    ensures Progress(after, original, prefix, options, size, start, i + 1,
                     offset + |OptionHead(previous, options[i])| + |options[i].value|, options[i].number)
  {
    hide OptionsReach, OptionReach, OptionHead, EncodeOptions, OptionFits, Starts;
    var o := options[i];
    var next := offset + |OptionHead(previous, o)| + |o.value|;
    StartsWhole(after, next, before[..offset], OptionHead(previous, o) + o.value);
    Regrouped(before[..offset], OptionHead(previous, o), o.value);
    Regrouped(prefix + EncodeOptions(0, options[..i]), OptionHead(previous, o), o.value);
    ProgressRoom(before, original, prefix, options, size, start, i, offset, previous);
    TailOfTail(after, before, next, OptionsReach(start, size, 0, options));
    EncodesNext(options, i);
    FittingOption(offset, size, previous, o);
    assert options[i..][0] == o && options[i..][1..] == options[i + 1..];
    ReachNext(offset, size, previous, options[i..]);
    assert options[..i + 1][i] == o;
  }

  lemma ProgressEnds(memory: seq<byte>, original: seq<byte>, prefix: seq<byte>, options: seq<Opt>,
                     size: nat, start: nat, offset: nat, previous: uint16)
    requires Progress(memory, original, prefix, options, size, start, |options|, offset, previous)
    ensures !OptionsRefused(start + |EncodeOptions(0, options)|, size, options)
    ensures offset <= |memory| && memory[..offset] == prefix + EncodeOptions(0, options)
    ensures var reach := OptionsReach(start, size, 0, options);
            && reach <= |memory| == |original| && memory[reach..] == original[reach..]
            && Starts(memory, reach, prefix, EncodeOptions(0, options))
  {
    hide OptionsReach, EncodeOptions, Starts;
    assert options[..|options|] == options && options[|options|..] == [];
    NoOptionsReach(offset, size, previous);
    StartsWhole(memory, offset, prefix, EncodeOptions(0, options));
  }

  lemma NoOptionsReach(offset: nat, size: nat, previous: uint16)
    ensures OptionsReach(offset, size, previous, []) == offset
  {
  }

  /** An option that does not fit makes the whole list not fit. */
  lemma Refuses(options: seq<Opt>, start: nat, size: nat, i: nat)
    requires i < |options|
    requires !OptionFits(start + |EncodeOptions(0, options[..i])|, size, LastNumber(0, options[..i]), options[i])
    ensures OptionsRefused(start + |EncodeOptions(0, options)|, size, options)
  {
    hide OptionHead, EncodeOptions;
    EncodesNext(options, i);
    if i + 1 == |options| {
      assert options[..i + 1] == options;
    }
  }

  class Packet {
    var header: byte
    var code: byte
    var identity: uint16
    const token: array<byte>
    var options: seq<Opt>
    var payloadOffset: nat
    var payload: seq<byte>
    const littleEndian: bool

    ghost predicate Valid() reads this { token.Length == TOKEN_MAX_LENGTH }

    ghost function State(): (s: Snapshot)
      requires Valid()
      reads this, token
      ensures Shaped(s)
    {
      Snapshot(header, code, identity, token[..], options, payloadOffset, payload)
    }

    constructor (littleEndian: bool)
      ensures Valid() && fresh(token) && State() == Fresh && this.littleEndian == littleEndian
      ensures header == code == 0 && identity == 0 && options == [] && payload == [] && payloadOffset == 0
    {
      this.littleEndian := littleEndian;
      header, code, identity, options, payloadOffset, payload := 0, 0, 0, [], 0, [];
      token := new byte[8](_ => 0);
      new;
      assert token[..] == Fresh.token;
    }

    method ParseHeader(buffer: array<byte>, size: nat) returns (error: Option<Error>)
      requires Valid() && size < buffer.Length
      modifies this
      ensures Step(State(), error) == CoapWire.ParseHeader(old(State()), buffer[..size], littleEndian)
    {
      if size < HEADER_SIZE {
        return Some(InvalidArgument);
      }
      header := buffer[0];
      if Version(header) != COAP_VERSION {
        return Some(ProtocolVersion);
      }
      code := buffer[1];
      identity := if littleEndian then Word(buffer[2], buffer[3]) else Word(buffer[3], buffer[2]);
      error := None;
    }

    method ParseToken(buffer: array<byte>, size: nat) returns (error: Option<Error>)
      requires Valid() && size < buffer.Length && buffer != token
      modifies token
      ensures Step(State(), error) == CoapWire.ParseToken(old(State()), buffer[..size])
    {
      if TokenLength(header) > TOKEN_MAX_LENGTH {
        return Some(TokenTooLong);
      }
      if size < HEADER_SIZE + TokenLength(header) {
        return Some(InvalidArgument);
      }
      var n := TokenLength(header);
      forall i | 0 <= i < n {
        token[i] := buffer[HEADER_SIZE + i];
      }
      ghost var read := buffer[..size][HEADER_SIZE..HEADER_SIZE + n];
      assert token[..n] == read by {
        assert forall i :: 0 <= i < n ==> token[..n][i] == read[i];
      }
      assert token[n..] == old(token[..])[n..];
      assert token[..] == token[..n] + token[n..];
      error := None;
    }

    method ParseOptions(buffer: array<byte>, size: nat) returns (error: Option<Error>)
      requires Valid() && size < buffer.Length && HEADER_SIZE + TokenLength(header) <= size
      modifies this`options, this`payloadOffset
      ensures Step(State(), error) == CoapWire.ParseOptions(old(State()), buffer[..size], littleEndian)
    {
      hide DecodeOptions, Continues;
      var start := HEADER_SIZE + TokenLength(header);
      ghost var whole := DecodeOptions(buffer[start..size], 0, littleEndian);
      assert buffer[..size][start..] == buffer[start..size];
      options := [];
      var number: uint16 := 0;
      var offset := start;
      ContinuesFrom(whole);
      while buffer[offset] != PAYLOAD_MARKER && offset < size
        invariant start <= offset <= size
        invariant payloadOffset == old(payloadOffset)
        invariant Continues(whole, options, DecodeOptions(buffer[offset..size], number, littleEndian))
        decreases size - offset
      {
        ghost var parsed := options;
        var failed, o, next := ParseNext(buffer, size, offset, number, littleEndian);
        if failed.Some? {
          ContinuesTo(whole, options, DecodeOptions(buffer[offset..size], number, littleEndian));
          return failed;
        }
        options := options + [o];
        number, offset := o.number, next;
        ContinuesWith(whole, parsed, o, DecodeOptions(buffer[offset..size], number, littleEndian));
      }
      StopsAt(buffer[offset..size], number, littleEndian);
      ContinuesTo(whole, options, OptionsRead([], buffer[offset..size], None));
      payloadOffset := offset + 1;
      error := None;
    }

    method ParsePayload(buffer: array<byte>, size: nat) returns (error: Option<Error>)
      requires Valid() && size < buffer.Length
      modifies this`payload
      ensures Step(State(), error) == CoapWire.ParsePayload(old(State()), buffer[..size])
    {
      if size < payloadOffset {
        return Some(InvalidArgument);
      }
      var i := 0;
      while i < size - payloadOffset
        invariant 0 <= i <= size - payloadOffset
        invariant payload == old(payload) + buffer[payloadOffset..payloadOffset + i]
      {
        payload := payload + [buffer[payloadOffset + i]];
        i := i + 1;
      }
      assert buffer[..size][payloadOffset..] == buffer[payloadOffset..size];
      error := None;
    }

    /**
     The memory goes on past the `size` bytes of the message, since the option loop
     looks one byte past the end; the outcome depends on the message alone.
     */
    method Parse(buffer: array<byte>, size: nat) returns (error: Option<Error>)
      requires Valid() && size < buffer.Length && buffer != token
      modifies this, token
      ensures Step(State(), error) == CoapWire.Parse(old(State()), buffer[..size], littleEndian)
    {
      if size == 0 {
        return Some(InvalidArgument);
      }
      error := ParseHeader(buffer, size);
      if error.Some? { return; }
      error := ParseToken(buffer, size);
      if error.Some? { return; }
      error := ParseOptions(buffer, size);
      if error.Some? { return; }
      error := ParsePayload(buffer, size);
    }

    /** Behind the last byte the real pass writes; it writes the header even if it refuses the token. */
    ghost function Room(size: nat): nat
      requires Valid()
      reads this, token
    {
      if TokenLength(header) <= TOKEN_MAX_LENGTH then Reach(Wire(State()), size)
      else if size < HEADER_SIZE + TokenLength(header) then 0
      else HEADER_SIZE
    }

    method WriteHeader(buffer: array<byte>)
      requires HEADER_SIZE <= buffer.Length
      modifies buffer
      ensures buffer[..HEADER_SIZE] == [header, code] + EncodeIdentity(identity, littleEndian)
      ensures buffer[HEADER_SIZE..] == old(buffer[HEADER_SIZE..])
    {
      buffer[0], buffer[1] := header, code;
      if littleEndian {
        buffer[2], buffer[3] := identity / 256, identity % 256;
      } else {
        buffer[2], buffer[3] := identity % 256, identity / 256;
      }
    }

    /** The header and the token, in memory that holds them. */
    method WritePrefix(buffer: array<byte>)
      requires Valid() && buffer != token && TokenLength(header) <= TOKEN_MAX_LENGTH
      requires HEADER_SIZE + TokenLength(header) <= buffer.Length
      modifies buffer
      ensures var n := HEADER_SIZE + TokenLength(header);
              && buffer[..n] == Prefix(Wire(State()), littleEndian)
              && buffer[n..] == old(buffer[n..])
    {
      ghost var before := buffer[..];
      WriteHeader(buffer);
      CopyInto(buffer, HEADER_SIZE, token[..TokenLength(header)]);
      assert buffer[HEADER_SIZE + TokenLength(header)..] == before[HEADER_SIZE..][TokenLength(header)..];
    }

    /** The option loop, from the offset behind the token on. */
    method WriteOptions(buffer: array?<byte>, size: nat, start: nat, checkBufferSizeOnly: bool, ghost prefix: seq<byte>)
        returns (error: Option<Error>, offset: nat)
      requires !checkBufferSizeOnly ==>
                 && buffer != null && start <= size && start <= buffer.Length && buffer[..start] == prefix
                 && OptionsReach(start, size, 0, options) <= buffer.Length
      modifies buffer
      ensures error.None? ==> offset == start + |EncodeOptions(0, options)|
      ensures error == if !checkBufferSizeOnly && OptionsRefused(start + |EncodeOptions(0, options)|, size, options)
                       then Some(BufferTooSmall) else None
      ensures !checkBufferSizeOnly ==>
                && (error.None? ==> offset <= buffer.Length && buffer[..offset] == prefix + EncodeOptions(0, options))
                && var reach := OptionsReach(start, size, 0, options);
                   && reach <= buffer.Length && buffer[reach..] == old(buffer[reach..])
                   && Starts(buffer[..], reach, prefix, EncodeOptions(0, options))
      ensures checkBufferSizeOnly && buffer != null ==> buffer[..] == old(buffer[..])
    {
      hide OptionHead, EncodeOptions, OptionsReach, OptionReach, OptionFits, OptionsRefused, Progress, Starts;
      NothingEncoded(options);
      offset := start;
      ghost var original := if buffer != null then buffer[..] else [];
      if !checkBufferSizeOnly {
        ProgressStart(original, prefix, options, size, start);
      }
      var previous: uint16 := 0;
      var i := 0;
      while i < |options|
        invariant 0 <= i <= |options| && previous == LastNumber(0, options[..i])
        invariant offset == start + |EncodeOptions(0, options[..i])|
        invariant !checkBufferSizeOnly ==>
                    Progress(buffer[..], original, prefix, options, size, start, i, offset, previous)
        invariant checkBufferSizeOnly && buffer != null ==> buffer[..] == old(buffer[..])
      {
        EncodesNext(options, i);
        ghost var before := if buffer != null then buffer[..] else [];
        ghost var here := offset;
        if !checkBufferSizeOnly {
          ProgressRoom(before, original, prefix, options, size, start, i, offset, previous);
        }
        error, offset := WriteOption(buffer, size, offset, previous, options[i], checkBufferSizeOnly);
        if error.Some? {
          ProgressStops(before, buffer[..], original, prefix, options, size, start, i, here, previous);
          return;
        }
        if !checkBufferSizeOnly {
          ProgressNext(before, buffer[..], original, prefix, options, size, start, i, here, previous);
        }
        previous := options[i].number;
        i := i + 1;
      }
      assert options[..i] == options;
      if !checkBufferSizeOnly {
        ProgressEnds(buffer[..], original, prefix, options, size, start, offset, previous);
      }
      error := None;
    }

    /** The marker and the payload behind the options. */
    method AppendPayload(buffer: array?<byte>, size: nat, offset: nat, checkBufferSizeOnly: bool)
        returns (error: Option<Error>, written: nat)
      requires !checkBufferSizeOnly ==>
                 && buffer != null && offset <= size
                 && PayloadReach(offset, size, payload) <= buffer.Length
      modifies buffer
      ensures error == if !checkBufferSizeOnly && offset + |EncodePayload(payload)| > size
                       then Some(BufferTooSmall) else None
      ensures written == if error.Some? then size else offset + |EncodePayload(payload)|
      ensures !checkBufferSizeOnly ==>
                var reach := PayloadReach(offset, size, payload);
                && Starts(buffer[..], reach, old(buffer[..offset]), EncodePayload(payload))
                && buffer[reach..] == old(buffer[reach..])
      ensures checkBufferSizeOnly && buffer != null ==> buffer[..] == old(buffer[..])
    {
      hide Starts;
      error, written := None, size;
      if payload == [] {
        written := offset;
        if !checkBufferSizeOnly {
          NothingWritten(buffer[..], offset, []);
        }
        return;
      }
      MarkedPayload([], payload);
      if !checkBufferSizeOnly {
        ghost var before := buffer[..];
        ghost var reach := PayloadReach(offset, size, payload);
        hide EncodePayload;
        buffer[offset] := PAYLOAD_MARKER;
        KeepsTail(buffer[..], before, offset + 1, reach);
        assert buffer[..offset + 1] == before[..offset] + [PAYLOAD_MARKER];
        if offset + 1 > size || offset + 1 + |payload| > size {
          MarkerWritten(buffer[..], before[..offset], payload);
          return Some(BufferTooSmall), size;
        }
        CopyInto(buffer, offset + 1, payload);
        MarkedPayload(before[..offset], payload);
        StartsWhole(buffer[..], reach, before[..offset], EncodePayload(payload));
      }
      written := offset + 1 + |payload|;
    }

    /** Everything behind the token. */
    method WriteBody(buffer: array?<byte>, size: nat, start: nat, checkBufferSizeOnly: bool, ghost prefix: seq<byte>)
        returns (error: Option<Error>, written: nat)
      requires !checkBufferSizeOnly ==>
                 && buffer != null && start <= size && start <= buffer.Length && buffer[..start] == prefix
                 && BodyReach(start, size, options, payload) <= buffer.Length
      modifies buffer
      ensures var body := EncodeOptions(0, options) + EncodePayload(payload);
              && error == (if !checkBufferSizeOnly && BodyRefused(start, size, options, payload)
                           then Some(BufferTooSmall) else None)
              && written == (if error.Some? then size else start + |body|)
              && (!checkBufferSizeOnly && error.None? ==> written == BodyReach(start, size, options, payload))
              && (!checkBufferSizeOnly ==>
                    Starts(buffer[..], BodyReach(start, size, options, payload), prefix, body))
      ensures !checkBufferSizeOnly ==>
                var reach := BodyReach(start, size, options, payload);
                buffer[reach..] == old(buffer[reach..])
      ensures checkBufferSizeOnly && buffer != null ==> buffer[..] == old(buffer[..])
    {
      hide OptionHead, EncodeOptions, EncodePayload, OptionsReach, BodyReach, BodyRefused, PayloadReach, Starts;
      BodyCases(start, size, options, payload);
      ghost var first, last := EncodeOptions(0, options), EncodePayload(payload);
      ghost var before := if buffer != null then buffer[..] else [];
      if !checkBufferSizeOnly {
        BodyReaches(start, size, options, payload);
      }
      var offset;
      error, offset := WriteOptions(buffer, size, start, checkBufferSizeOnly, prefix);
      if error.Some? {
        StartsLonger(buffer[..], OptionsReach(start, size, 0, options), prefix, first, last);
        return error, size;
      }
      if !checkBufferSizeOnly {
        TailOfTail(buffer[..], before, OptionsReach(start, size, 0, options), BodyReach(start, size, options, payload));
      }
      ghost var between := if buffer != null then buffer[..] else [];
      error, written := AppendPayload(buffer, size, offset, checkBufferSizeOnly);
      if !checkBufferSizeOnly {
        StartsEarlier(buffer[..], PayloadReach(offset, size, payload), prefix, first, last);
      }
    }

    /**
     The dry run reports the length of the encoding; the real pass writes it. The memory behind
     `buffer` has to hold what the pass writes before it notices that `size` is too small: the first
     `Room(size)` bytes of the encoding, and these it writes.
     */
    method Serialize(buffer: array?<byte>, size: nat, checkBufferSizeOnly: bool)
        returns (error: Option<Error>, written: nat)
      requires Valid() && buffer != token
      requires !checkBufferSizeOnly && buffer != null ==> Room(size) <= buffer.Length
      modifies buffer
      ensures error.Some? ==> written == size
      ensures TokenLength(header) <= TOKEN_MAX_LENGTH ==>
                var m := Wire(State());
                if checkBufferSizeOnly then error == None && written == |Encode(m, littleEndian)|
                else if buffer == null then error == Some(InvalidArgument)
                else
                  && error == SerializeError(m, size, littleEndian)
                  && (error == None ==> written == |Encode(m, littleEndian)| <= buffer.Length
                                        && buffer[..written] == Encode(m, littleEndian))
      ensures TokenLength(header) > TOKEN_MAX_LENGTH ==>
                error == if !checkBufferSizeOnly && (buffer == null || size < HEADER_SIZE + TokenLength(header))
                         then Some(InvalidArgument) else Some(TokenTooLong)
      ensures checkBufferSizeOnly && buffer != null ==> buffer[..] == old(buffer[..])
      ensures !checkBufferSizeOnly && buffer != null ==> buffer[Room(size)..] == old(buffer[Room(size)..])
      ensures !checkBufferSizeOnly && buffer != null && TokenLength(header) <= TOKEN_MAX_LENGTH ==>
                var text := Encode(Wire(State()), littleEndian);
                Room(size) <= |text| && buffer[..Room(size)] == text[..Room(size)]
    {
      hide OptionHead, EncodeOptions, Prefix, Encode, OptionsReach, BodyReach, Starts;
      written := size;
      var n := HEADER_SIZE + TokenLength(header);
      if !checkBufferSizeOnly {
        if buffer == null || size < n {
          return Some(InvalidArgument), written;
        }
      }
      if n > HEADER_SIZE + TOKEN_MAX_LENGTH {
        if !checkBufferSizeOnly {
          WriteHeader(buffer);
        }
        return Some(TokenTooLong), written;
      }
      ghost var m := Wire(State());
      ghost var prefix := Prefix(m, littleEndian);
      EncodesPieces(m, littleEndian);
      ghost var before := if buffer != null then buffer[..] else [];
      if !checkBufferSizeOnly {
        BodyReaches(n, size, options, payload);
        WritePrefix(buffer);
        TailOfTail(buffer[..], before, n, Room(size));
      }
      ghost var between := if buffer != null then buffer[..] else [];
      error, written := WriteBody(buffer, size, n, checkBufferSizeOnly, prefix);
      if !checkBufferSizeOnly {
        TailOfTail(buffer[..], between, BodyReach(n, size, options, payload), Room(size));
        Regrouped(prefix, EncodeOptions(0, options), EncodePayload(payload));
        StartOfText(buffer[..], Room(size), prefix, EncodeOptions(0, options) + EncodePayload(payload));
        BodyRefusedIs(m, size, littleEndian);
      }
    }

    /** The library sort: the order of options with equal numbers is not promised. */
    method SortOptions()
      modifies this`options
      ensures Sorted(options) && multiset(options) == old(multiset(options))
    {
      SortSorts(options);
      options := Sort(options);
    }

    method AddOption(number: nat, value: seq<byte>) returns (error: Option<Error>)
      modifies this`options
      ensures Adds(old(options), Request(number, value), options)
      ensures error == if number <= 60 && |value| <= 256 then None else Some(OptionNumber)
      ensures error.Some? ==> options == old(options)
      ensures error.None? ==>
                && (forall i, j :: 0 <= i < j < |options| ==> options[i].number <= options[j].number)
                && multiset(options) == old(multiset(options)) + multiset{Opt(number, value)}
    {
      if number > OPTION_MAX_NUMBER {
        return Some(OptionNumber);
      }
      if |value| > OPTION_MAX_LENGTH {
        return Some(OptionNumber);
      }
      options := options + [Opt(number, value)];
      SortOptions();
      error := None;
    }

    /** The positions of all options with this number, and how many there are. */
    method FindOption(number: uint16) returns (quantity: nat, found: seq<nat>)
      modifies this`options
      ensures Sorted(options) && multiset(options) == old(multiset(options))
      ensures quantity == |found|
      ensures forall i :: 0 <= i < |options| ==> (i in found <==> options[i].number == number)
      ensures forall k :: 0 <= k < |found| ==> found[k] == found[0] + k < |options|
    {
      SortOptions();
      quantity, found := 0, [];
      var index := 0;
      while index < |options|
        invariant 0 <= index <= |options|
        invariant found == [] && quantity == 0
        invariant forall i :: 0 <= i < index ==> options[i].number != number
        invariant Sorted(options) && multiset(options) == old(multiset(options))
      {
        if options[index].number == number {
          var first := index;
          while index < |options| && options[index].number == number
            invariant first <= index <= |options| && quantity == |found| == index - first
            invariant forall k :: 0 <= k < |found| ==> found[k] == first + k
            invariant forall i :: first <= i < index ==> found[i - first] == i && options[i].number == number
            invariant Sorted(options) && multiset(options) == old(multiset(options))
          {
            quantity, found, index := quantity + 1, found + [index], index + 1;
          }
          forall i | 0 <= i < |options| ensures i in found <==> options[i].number == number {
            if index <= i && options[i].number == number {
              RunIsContiguous(options, first, index, i);
            }
            if first <= i < index {
              assert found[i - first] == i;
            }
          }
          return;
        }
        index := index + 1;
      }
    }

    /** The header, token and payload of a request; the random token is an argument. */
    method MakeRequest(kind: nat, code: byte, id: uint16, payload: seq<byte>, randomToken: seq<byte>)
        returns (error: Option<Error>)
      requires Valid() && kind < 4
      modifies this`header, this`code, this`identity, this`payload, token
      ensures error == if |randomToken| > TOKEN_MAX_LENGTH then Some(InvalidArgument) else None
      ensures error.Some? ==> State() == old(State())
      ensures error.None? ==>
                && header % 16 == |randomToken| && header / 64 == 1 && header / 16 % 4 == kind
                && Wire(State()) == Message(header, code, id, randomToken, old(options), payload)
    {
      hide Version, TokenLength;
      if |randomToken| > TOKEN_MAX_LENGTH {
        return Some(InvalidArgument);
      }
      HeaderBits(kind, header % 16, |randomToken|);
      header := 64 * COAP_VERSION + 16 * kind + header % 16;
      identity := id;
      this.code := code;
      forall i | 0 <= i < |randomToken| {
        token[i] := randomToken[i];
      }
      header := header / 16 * 16 + |randomToken|;
      this.payload := payload;
      assert token[..|randomToken|] == randomToken;
      error := None;
    }
  }

  /** Both serializer passes and a parse into a fresh packet on a host of any byte order, as applications run them. */
  method Loopback(p: Packet, littleEndian: bool) returns (q: Packet, error: Option<Error>)
    requires p.Valid() && TokenLength(p.header) <= TOKEN_MAX_LENGTH
    ensures q.Valid() && fresh(q) && (error.None? ==> TokenLength(q.header) <= TOKEN_MAX_LENGTH)
    ensures error.None? && Wire(q.State()) == Received(Wire(p.State()), p.littleEndian, littleEndian)
            <==> Survives(Wire(p.State()), littleEndian)
    ensures error.None? && Wire(q.State()) == Wire(p.State())
            <==> Survives(Wire(p.State()), littleEndian)
                 && (p.littleEndian == littleEndian || p.identity / 256 == p.identity % 256)
  {
    hide CoapWire.Parse, Encode, Survives, Received, Reach;
    ghost var m := Wire(p.State());
    q := new Packet(littleEndian);
    var dry, size := p.Serialize(null, 0, true);
    var memory := new byte[size + 1];
    ReportedSizeIsSafe(m, size, p.littleEndian);
    var failed, written := p.Serialize(memory, size, false);
    if failed.Some? {
      TightBufferRefuses(m, p.littleEndian);
      PayloadNeeded(m, littleEndian);
      return q, failed;
    }
    error := q.Parse(memory, written);
    BetweenHosts(m, p.littleEndian, littleEndian);
  }

  /** The exact buffer is refused only for a message without payload, which the parser would refuse as well. */
  lemma TightBufferRefuses(m: Message, littleEndian: bool)
    requires Sendable(m) && SerializeError(m, |Encode(m, littleEndian)|, littleEndian).Some?
    ensures m.payload == []
  {
  }

  lemma PayloadNeeded(m: Message, littleEndian: bool)
    requires m.payload == []
    ensures !Survives(m, littleEndian)
  {
  }
}
