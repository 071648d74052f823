/** What both peers of the SPI link share: the frame, its limits, and the errors. */
module PicoFrame {
  import opened Crc8
  import opened Octet

  const HEADER_LENGTH := 4
  const DATA_MAX_LENGTH := 251
  const SIGNATURE_0: bv8 := 0xA5
  const SIGNATURE_1: bv8 := 0x5A

  datatype Error = MessageSize | Protocol | BadMessage | InvalidArgument | InputOutput | HandlerFailed

  function Zeros(n: nat): (r: seq<bv8>)
    ensures |r| == n
  {
    seq(n, _ => 0)
  }

  function Header(length: bv8, crc: bv8): seq<bv8> { [SIGNATURE_0, SIGNATURE_1, length, crc] }

  function Frame(data: seq<bv8>): seq<bv8>
    requires |data| <= DATA_MAX_LENGTH
  {
    Header(LowByte(|data|), Crc(data)) + data
  }

  lemma IsFrame(message: seq<bv8>, data: seq<bv8>)
    requires |data| <= DATA_MAX_LENGTH && |message| == HEADER_LENGTH + |data|
    requires message[0..0 + 4] == [SIGNATURE_0, SIGNATURE_1, LowByte(|data|), Crc(data)]
    requires message[4..4 + |data|] == data
    ensures message == Frame(data)
  {
    hide Crc, LowByte;
    assert message == message[0..0 + 4] + message[4..4 + |data|];
  }

  /** The string a C program reads from memory that starts with `data` and goes on with zero. */
  function CString(data: seq<bv8>): seq<bv8> {
    if data == [] || data[0] == 0 then [] else [data[0]] + CString(data[1..])
  }

  /** It is the data exactly if no byte of it is zero. */
  lemma {:induction false} CStringWhole(data: seq<bv8>)
    ensures CString(data) == data <==> 0 !in data
    ensures |CString(data)| <= |data|
  {
    if data != [] {
      CStringWhole(data[1..]);
      assert data == [data[0]] + data[1..];
    }
  }

  /** `text` is the longest start of `data` without a zero byte. */
  predicate ZeroFreeStart(text: seq<bv8>, data: seq<bv8>) {
    text <= data && 0 !in text && (|text| < |data| ==> data[|text|] == 0)
  }

  /** The string is that start, and nothing else is. */
  lemma {:induction false} CStringIs(data: seq<bv8>, text: seq<bv8>)
    ensures text == CString(data) <==> ZeroFreeStart(text, data)
    decreases |data|
  {
    if data != [] && data[0] != 0 {
      CStringIs(data[1..], CString(data[1..]));
      assert data == [data[0]] + data[1..];
      assert CString(data)[1..] == CString(data[1..]);
      if text != [] {
        CStringIs(data[1..], text[1..]);
        assert text == [text[0]] + text[1..];
        assert text <= data <==> text[0] == data[0] && text[1..] <= data[1..];
      }
    }
  }

  /** A string in zeroed memory ends at the first zero behind it. */
  lemma {:induction false} CStringPadded(data: seq<bv8>, n: nat)
    ensures CString(data + Zeros(n)) == CString(data)
  {
    if data == [] {
      assert data + Zeros(n) == Zeros(n);
    } else {
      CStringPadded(data[1..], n);
      assert (data + Zeros(n))[1..] == data[1..] + Zeros(n);
    }
  }
}
