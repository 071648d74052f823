/**
 The SPI device of the RPi-400: its transmit and receive buffers and the transfers
 between them and the line. A transfer is full duplex: it sends and receives the same
 number of bytes. What the peer clocks in is the sequence `incoming`; a transfer that
 asks for more than is there fails.
 */
module SpiDevice {
  import opened Bytes
  import opened PicoFrame

  const RX_BUF_SIZE := 256
  const TX_BUF_SIZE := 256

  /** The capacity of the transmit buffer, what the line will deliver, and what was sent. */
  datatype Line = Line(capacity: nat, incoming: seq<bv8>, sent: seq<bv8>)

  datatype Transfer = Transfer(line: Line, data: seq<bv8>, error: Option<Error>)

  function Exchange(line: Line, out: seq<bv8>): (t: Transfer)
    ensures t.error.None? ==> |t.data| == |out|
  {
    var n := |out|;
    if |line.incoming| < n then Transfer(line, [], Some(InputOutput))
    else Transfer(Line(line.capacity, line.incoming[n..], line.sent + out), line.incoming[..n], None)
  }

  /** The line takes over the capacity of the buffer that the message is in. */
  function Write(line: Line, capacity: nat, message: seq<bv8>): Transfer {
    Exchange(line.(capacity := capacity), message)
  }

  function Read(line: Line, length: nat): (t: Transfer)
    ensures t.error.None? ==> |t.data| == length
  {
    if length == 0 || length > line.capacity || length > RX_BUF_SIZE then Transfer(line, [], Some(InvalidArgument))
    else Exchange(line, Zeros(length))
  }

  /** Sets the first bytes of an array. */
  method Fill(a: array<bv8>, data: seq<bv8>)
    requires |data| <= a.Length
    modifies a
    ensures a[..] == data + old(a[|data|..])
  {
    forall i | 0 <= i < |data| {
      a[i] := data[i];
    }
  }

  /** Sets bytes from a position on. */
  method FillAt(a: array<bv8>, start: nat, data: seq<bv8>)
    requires start + |data| <= a.Length
    modifies a
    ensures a[..start] == old(a[..start])
    ensures a[start..start + |data|] == data
    ensures a[start + |data|..] == old(a[start + |data|..])
  {
    forall i | 0 <= i < |data| {
      a[start + i] := data[i];
    }
  }

  class Spi {
    var txData: array<bv8>
    var txOffset: nat
    const rxData: array<bv8>
    var rxOffset: nat
    var incoming: seq<bv8>
    var sent: seq<bv8>

    ghost var Repr: set<object>

    ghost predicate Valid()
      reads this, Repr
      ensures Valid() ==> this in Repr
    {
      && this in Repr && txData in Repr && rxData in Repr
      && txData != rxData && rxData.Length == RX_BUF_SIZE
    }

    ghost function State(): Line
      reads this
    {
      Line(txData.Length, incoming, sent)
    }

    constructor (incoming: seq<bv8>)
      ensures Valid() && fresh(Repr)
      ensures State() == Line(256, incoming, []) && txOffset == 0
    {
      txData := new bv8[TX_BUF_SIZE](_ => 0);
      rxData := new bv8[RX_BUF_SIZE](_ => 0);
      txOffset, rxOffset := 0, 0;
      this.incoming, sent := incoming, [];
      new;
      Repr := {this, txData, rxData};
    }

    /** Sends what the transmit buffer holds up to its offset. */
    method WriteRead() returns (error: Option<Error>)
      requires Valid() && txOffset <= txData.Length && txOffset <= RX_BUF_SIZE
      modifies Repr
      ensures Valid() && Repr == old(Repr) && txData == old(txData) && txData[..] == old(txData[..])
      ensures var t := Exchange(old(State()), old(txData[..txOffset]));
              && State() == t.line && error == t.error
              && rxData[..] == t.data + Zeros(RX_BUF_SIZE - |t.data|)
      ensures var n := old(txOffset);
              if |old(incoming)| < n then error == Some(InputOutput) && incoming == old(incoming) && sent == old(sent)
              else && error == None && incoming == old(incoming[n..]) && sent == old(sent + txData[..n])
                   && n <= rxData.Length == 256 && rxData[..n] == old(incoming[..n])
                   && forall i :: n <= i < 256 ==> rxData[i] == 0
    {
      Fill(rxData, Zeros(RX_BUF_SIZE));
      rxOffset := 0;
      var n := txOffset;
      if |incoming| < n {
        assert rxData[..] == [] + Zeros(RX_BUF_SIZE);
        return Some(InputOutput);
      }
      Fill(rxData, incoming[..n]);
      incoming, sent := incoming[n..], sent + txData[..n];
      rxOffset := txOffset;
      error := None;
    }

    /** `Buffer::operator=` replaces the transmit buffer, and so its capacity. */
    method WriteBlocking(src: array<bv8>, offset: nat) returns (error: Option<Error>)
      requires Valid() && offset <= src.Length && offset <= RX_BUF_SIZE && src !in Repr
      modifies Repr
      ensures Valid() && fresh(Repr - old(Repr)) && src !in Repr
      ensures var t := Write(old(State()), src.Length, src[..offset]);
              State() == t.line && error == t.error
    {
      var copy := new bv8[src.Length];
      Fill(copy, src[..]);
      txData, txOffset := copy, offset;
      Repr := Repr + {copy};
      assert txData[..] == src[..];
      error := WriteRead();
    }

    /** Reads into the receive buffer. */
    method ReadBlocking(length: nat) returns (error: Option<Error>)
      requires Valid()
      modifies Repr
      ensures Valid() && Repr == old(Repr)
      ensures error == if length == 0 || length > old(txData.Length) || length > 256 then Some(InvalidArgument)
                       else if length > |old(incoming)| then Some(InputOutput) else None
      ensures var t := Read(old(State()), length);
              && State() == t.line && error == t.error
              && (error.None? ==> rxData[..] == t.data + Zeros(RX_BUF_SIZE - length))
    {
      if length == 0 || length > txData.Length || length > rxData.Length {
        return Some(InvalidArgument);
      }
      Fill(txData, Zeros(length));
      txOffset := length;
      assert txData[..length] == Zeros(length);
      error := WriteRead();
    }

    /** Reads into the caller's memory. */
    method ReadBlockingInto(dst: array<bv8>, length: nat) returns (error: Option<Error>)
      requires Valid() && dst !in Repr && length <= dst.Length
      modifies Repr, dst
      ensures Valid() && Repr == old(Repr)
      ensures error == if length == 0 || length > old(txData.Length) || length > 256 then Some(InvalidArgument)
                       else if length > |old(incoming)| then Some(InputOutput) else None
      ensures var t := Read(old(State()), length);
              && State() == t.line && error == t.error
              && (error.None? ==> dst[..length] == t.data)
    {
      if length == 0 || length > txData.Length || length > rxData.Length {
        return Some(InvalidArgument);
      }
      Fill(txData, Zeros(txData.Length));
      Fill(txData, Zeros(length));
      txOffset := length;
      assert txData[..length] == Zeros(length);
      error := WriteRead();
      if error.Some? { return; }
      Fill(dst, rxData[..length]);
    }
  }
}
