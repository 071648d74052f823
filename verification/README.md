# Models of a CoAP library and its example programs

The project models, and proves properties of, the parts of the library where the code decides what goes
over a wire or between threads:

- **CoAP messages** (sections 3 and 3.1 of RFC 7252): the parser and the two-pass serializer of `Packet`, as
  methods on byte arrays proved against pure functions `Encode` and `Decode`, and the exact conditions under
  which a message or a byte string survives the way there and back. `bytes.dfy`, `coap_wire.dfy`,
  `coap_fields.dfy`, `coap_format.dfy`, `coap_round_trip.dfy`, `coap_canonical.dfy`, `coap_options.dfy`,
  `coap_serialize.dfy`, `packet.dfy`.
- **Block options** (section 2.2 of RFC 7959) and their way through a packet. `blockwise.dfy`,
  `blockwise_format.dfy`.
- **The Pico SPI protocol**: the master's and the slave's state loops, the SPI buffers, the frame, the CRC-8 as
  arithmetic in GF(2)[x], and the two machines joined by two byte streams. `gf2.dfy`, `crc8.dfy`,
  `crc8_two_bits.dfy`, `octet.dfy`, `pico_frame.dfy`, `spi.dfy`, `pico_master.dfy`, `pico_slave.dfy`,
  `pico_link.dfy`, `pico_format.dfy`.
- **The UDP server's connection pool** and its queues: a state machine whose steps are those of the listener or
  remover (whoever holds the pool), of one worker per connection and of the clock, in any order.
  `safe_queue.dfy`, `udp_server.dfy`, `udp_connections.dfy`, `udp_pool.dfy`, `udp_payloads.dfy`,
  `udp_runs.dfy`, `udp_accepts.dfy`, `udp_removals.dfy`, `udp_echoes.dfy`.
- **Text formats**: URI paths, the CoRE link format (RFC 6690) and Base64 (section 4 of RFC 4648).
  `text.dfy`, `text_format.dfy`, `uri_path.dfy`, `uri_format.dfy`, `core_link.dfy`, `core_link_format.dfy`,
  `base64.dfy`, `base64_format.dfy`.
- **Ethernet frames** scattered over and gathered from the descriptor ring. `ethernet_frames.dfy`.

Code that updates fields or buffers is a class or a method with the source's loops; each such method is proved
against a function, and the properties are lemmas about those functions. `dafny verify dfyconfig.toml` checks
everything.

## How to read it

- `littleEndian` is the host's byte order as the library determines it; lemmas take it as an argument and
  hold for both values, or name the one they are about. `longMax` is the largest value of the host's `long`.
- Random tokens, message identities, received bytes, the bytes an SPI line delivers, the outcome of a `sendto`
  and the passing of a connection's lifetime are arguments or actions.
- `assert` calls beside an error return are the error return. Errors are tags.
- The files named `*_format.dfy`, and `udp_accepts.dfy`, say in literal bytes, characters and numbers what the
  functions of the model compute, for every input; the round trips alone would leave that open.
- `Survives`, `Canonical`, `NumberSurvives` and their like are the conditions of the if-and-only-if theorems;
  each is a test on the data alone.
- In the SPI model the two streams are coupled: what one side sends is what the other side receives, one byte
  per clocked byte. The peer cuts a transfer short by sending less; the master then ends with that error, and
  `ExchangeAlwaysSucceeds` says that nothing else keeps an admissible exchange from completing. `MasterRuns`
  and `SlaveServes` hold for any incoming stream, so also for a corrupted one.
- In the server model the pool is held by one thread at a time, as the mutex is meant to ensure, and a worker step
  is one access to the queue or to a flag. The worker runs the handler of
  `examples/POSIX/udp-echo-server/udp-echo-server.cc`. History fields (`arrived`, `handled`, `callsAfterStop`,
  `freed`, `lost`, a payload's `sender`) record a run and influence no step.

## Where the code departs from its intent

The models follow the code. What follows from it, each with its theorem:

- A little-endian host reads a two-byte extension low byte first and writes it high byte first
  (`src/packet.cc:129-130` and 386-387): `RoundTrip`, `Reencodes`, `LongOptionMisread`. Lists built by
  `add_option` never need such an extension: `BuiltOptionsSurvive`.
- `parse` refuses every message without a payload (`src/packet.cc:203` and 219): `PayloadlessRefused`.
- `parse` appends to the payload the packet already has (`src/packet.cc:228-229`): `ParsesMessage`.
- The option loop may look at one byte past the end (`src/packet.cc:120`, 127 and 165). The parser methods take
  an array with that byte, and their contracts do not depend on it.
- Option numbers wrap modulo 65536 (`src/packet.cc:191`): `AcceptedPartition`, `Canonical`.
- A buffer of exactly the encoded size is refused if the message ends in an empty option value
  (`src/packet.cc:390`): `Serialize`.
- The serializer writes an option's parts and the payload marker before it compares the offset with `size`
  (`src/packet.cc:484`, 506 and 521): `WritesInside` says for which sizes it stays inside, `ValueOverruns` is one
  for which it does not; `Serialize` says that these bytes are written.
- Hosts of different byte order swap the identity on the way (`src/packet.cc:69-72` and 441-449): `BetweenHosts`.
- Three-byte block numbers are packed in one order and unpacked in another (`src/blockwise.cc:80-82` and
  183-188): `BlockRoundTrip`, `Block4096Misread`. Numbers up to 2^20 were meant.
- The length tests of the block and size options narrow to eight bits, and the size option uses the block
  option's test (`src/blockwise.cc:41` and 108), so values of 257 bytes are accepted and four bytes refused:
  `DecodesUint`, `SizeIsUint`.
- The state of a Pico machine is never reset, so a second call does nothing and returns the old answer:
  `Transfer`, `Process`.
- A write leaves the master's transmit buffer with the capacity of the request, so an answer longer than
  request + 4 is refused: `MasterRuns`, `ExchangeOnlySo`.
- The checksum misses two changed bits 127 bits apart, for which a frame has room from 16 bytes of data on:
  `PairUnnoticed`, `SlaveWithPair`, `AlteredEchoed`.
- A worker's error code is never cleared, so after one failed send the echo handler drops every payload it takes
  without freeing it: `LosesExactly`, `LossReachable`.
- A connection keeps a pointer to the variable into which the listener receives each datagram's address
  (`examples/POSIX/common/udp_server.cc:193-198` and 430-435), so the lookup compares that variable with itself
  and every datagram goes to the connection there is. The server model covers both this (`Shared`, where the
  variable is at one place in every turn of the loop) and the addresses kept by value as meant (`Copied`); all
  its theorems hold for both, and `PoolOfConnections`, `LookupFinds`, `EchoToClient` and `EchoToLatest` say where
  they differ.
- The lookup ignores the port (`examples/POSIX/common/udp_server.cc:282-285`), so two clients of one host are one,
  and are answered at the port of the first: `EchoToClient`, `SecondPortAnsweredAtFirst`.
- In the CoRE link parser the search for the next parameter starts behind the last separator, so a quoted
  semicolon is taken for one: `QuotedSemicolonIsLost`.
- The Base64 decoder reads in front of an empty text, and indexes its table with a plain `char`; the model asks for
  a non-empty text and takes `char` as unsigned.

## Model

| member | source | states |
|---|---|---|
| `CoapRoundTrip.RoundTrip` | src/packet.cc:142-539 | Parsing what serialize wrote into a fresh packet gives the same message if and only if the version is 1, the options are sorted, every delta and length is read as it was written, and the payload is not empty |
| `CoapRoundTrip.ParsesMessage` | src/packet.cc:232-261 | The same for a packet in any state: the whole new state, with the old payload kept in front and the token bytes past the token length untouched |
| `CoapRoundTrip.BetweenHosts` | src/packet.cc:69-72 | Between hosts of any two byte orders a message arrives but for its identity if and only if it survives the receiver's order, and unchanged if and only if, besides, the orders or the two bytes of the identity are equal |
| `CoapRoundTrip.DecodesOptions` | src/packet.cc:165-201 | Reading a written option list back, whatever follows it: the same options exactly if each survives, else an error or other options |
| `CoapRoundTrip.SeenExactly` | src/packet.cc:118-134 | A delta or length comes back exactly if it is below 269, or at most 65535 and, on a little-endian host, its two extension bytes are equal |
| `CoapRoundTrip.PayloadlessRefused` | src/packet.cc:203-223 | Every well-written message without a payload is refused |
| `CoapRoundTrip.LongOptionMisread` | src/packet.cc:129-130 | A 270-byte option value: a little-endian host misreads its own message, a big-endian one does not |
| `CoapFields.WritesStandard` | src/packet.cc:335-394 | The nibble and extension written for a delta or length are those section 3.1 of RFC 7252 gives it, and the only ones, up to 65804 |
| `CoapFields.ReadsStandard` | src/packet.cc:104-140 | The reader refuses a fifteen and finds any other field; it gives the standard's value if and only if there is no two-byte extension, or the extension's bytes are equal on a little-endian host and the value fits 16 bits |
| `CoapFormat.OneOptionsText` | src/packet.cc:468-513 | The bytes written for an option list are a text of the standard (header byte of two nibbles, extensions, value, numbers as sums of deltas) and the only one: a list has one if and only if it is sorted and no value is longer than 65804 bytes |
| `CoapFormat.WritesFormat` | src/packet.cc:396-539 | The encoding is the one byte string made of the header byte, the code, two identity bytes, the token from byte 4 on, the options, and a byte 255 in front of the payload if there is one |
| `CoapFormat.ReadsFormat` | src/packet.cc:232-261 | A message of version 1 in its standard text with a payload behind a byte 255 is taken as that message if and only if every delta and length is one the host reads as it was written |
| `CoapFormat.AcceptsFormat` | src/packet.cc:142-230 | In every accepted string a byte 255 is where the options end; the payload is what follows it; version 1, token of at most 8 bytes |
| `CoapFormat.RefusalIs` | src/packet.cc:40-102 | Which error a byte string gets, in the order of the checks, with the lengths and the version as numbers |
| `CoapFormat.OptionRefusalIs` | src/packet.cc:104-201 | Which error the option loop ends with |
| `CoapFormat.SampleMessage` | src/packet.cc:396-539 | A message of two options and a payload, byte by byte |
| `CoapCanonical.Reencodes` | src/packet.cc:142-539 | An accepted byte string is what serialize writes for its message if and only if it is canonical: no number wraps, no two-byte extension changes, bytes follow the marker |
| `CoapCanonical.ReencodesOptions` | src/packet.cc:165-201 | The same for the option list alone, from any running option number |
| `CoapCanonical.AcceptedPartition` | src/packet.cc:142-230 | Header, token, options, marker and payload of an accepted string are its consecutive pieces; each option number is the sum of the deltas so far modulo 65536 |
| `CoapCanonical.OptionsPartition` | src/packet.cc:165-201 | What the option loop read and what it left are the string, without gap or overlap |
| `CoapCanonical.AcceptedState` | src/packet.cc:232-261 | The state after every accepted parse, whatever the state before |
| `CoapOptions.RunKeepsOrderAndContents` | src/packet.cc:263-305 | Over every sequence of add_option calls the list is sorted and holds exactly what the accepted calls asked for |
| `CoapOptions.BuiltOptionsSurvive` | src/packet.cc:281-291 | Every list add_option can build survives the wire on both kinds of host |
| `CoapSerialize.EncodesConcatenation` | src/packet.cc:470-513 | Options written in two goes are the options written at once, the second from the last number of the first |
| `CoapSerialize.WritesInside` | src/packet.cc:474-530 | The real pass writes no byte at or behind size if and only if size is too small to start, or the options fit and the marker too, or size is exactly where the extension of a delta or an option head ends |
| `CoapSerialize.ReportedSizeIsSafe` | src/packet.cc:396-539 | From the size the dry run reports on, every write is within the encoding |
| `CoapSerialize.ValueOverruns` | src/packet.cc:505-510 | A value of ten bytes in a buffer of six: refused, and the reach of the pass is fifteen |
| `CoapFormat.WriteRefusalIs` | src/packet.cc:396-539 | Which buffer sizes the real pass refuses, and with which error |
| `PacketClass.ParseOption` | src/packet.cc:104-140 | The extension reader against the pure field reader, on bytes of the buffer |
| `PacketClass.ReadOptionAt` | src/packet.cc:167-189 | One option head: the delta, where the value starts and its length, or the error |
| `PacketClass.ParseNext` | src/packet.cc:165-201 | One turn of the option loop: it advances, stays inside the buffer, and leaves the rest to be read as before |
| `PacketClass.MakeOption` | src/packet.cc:354-394 | Writes the extension and nothing else; in a dry run only counts; refuses when the offset reaches the size |
| `PacketClass.WriteOptionHead` | src/packet.cc:474-503 | The head of one option: also when it does not fit, exactly its start up to the reach is written |
| `PacketClass.WriteOption` | src/packet.cc:470-513 | One option: exactly when the buffer is too small, and in every case exactly its start up to the reach is written |
| `PacketClass.Packet.ParseHeader` | src/packet.cc:40-73 | The header step refines the specification, byte order included |
| `PacketClass.Packet.ParseToken` | src/packet.cc:75-102 | The token step refines the specification |
| `PacketClass.Packet.ParseOptions` | src/packet.cc:142-204 | The option loop refines the recursive option reader |
| `PacketClass.Packet.ParsePayload` | src/packet.cc:206-230 | The payload is appended; a marker past the end is refused |
| `PacketClass.Packet.Parse` | src/packet.cc:232-261 | Total, and its outcome and new state depend only on the old state and the first size bytes |
| `PacketClass.Packet.WriteOptions` | src/packet.cc:468-513 | The serializer loop refuses exactly when the options do not fit or end in an empty value at the last byte; in every case it writes exactly the start of their encoding up to the reach, and nothing behind it |
| `PacketClass.Packet.AppendPayload` | src/packet.cc:515-538 | The marker and the payload, or the marker alone if the payload does not fit |
| `PacketClass.Packet.Serialize` | src/packet.cc:396-539 | The dry run reports exactly the size the real pass writes; the error for every size; the real pass writes the encoding, a refused one exactly its start up to the reach, and nothing behind it |
| `PacketClass.Packet.SortOptions` | api/packet.h:179-180 | The list becomes sorted and keeps its contents; the order of equal numbers is left open |
| `PacketClass.Packet.AddOption` | src/packet.cc:263-305 | The effect on the list and the limits on number and length |
| `PacketClass.Packet.FindOption` | src/packet.cc:307-333 | The positions found are all options of that number and one contiguous run |
| `PacketClass.Packet.MakeRequest` | src/packet.cc:544-590 | The message the packet then stands for, with the token and identity given |
| `PacketClass.Loopback` | src/packet.cc:232-539 | Serializing into a buffer of the dry-run size and parsing into a fresh packet on a host of any byte order: what arrives, and exactly when |
| `Blockwise.BlockRoundTrip` | src/blockwise.cc:47-214 | Decoding an encoded block gives it back if and only if its number and size survive: below 16, or on a little-endian host below 4096 or five equal hexadecimal digits; size a power of two from 16 to 1024 |
| `Blockwise.NumberRead` | src/blockwise.cc:158-199 | Which number the decoder finds in what the encoder wrote, for every number and both byte orders |
| `Blockwise.BlockBetweenHosts` | src/blockwise.cc:47-214 | Between hosts of different byte order a block arrives if and only if its size does and its number is below 16, or was sent little-endian, is below 4096, has equal first and last hexadecimal digits and its middle digit equals the more bit and size exponent |
| `Blockwise.NumberReadAcross` | src/blockwise.cc:155-199 | Which number a host of the other byte order finds |
| `Blockwise.DecodesUint` | src/blockwise.cc:58-83 | Of a block option of any accepted length a little-endian host decodes the integer of section 2.2 of RFC 7959 that its last bytes are: three if these are all, two if there are more |
| `Blockwise.EncodesUint` | src/blockwise.cc:155-211 | It encodes a block as that integer if and only if the number is below 4096 or has five equal hexadecimal digits |
| `Blockwise.RotatedFixpoint` | src/blockwise.cc:183-188 | The byte rotation of three-byte numbers keeps exactly the multiples of 0x11111 |
| `Blockwise.Block4096Misread` | src/blockwise.cc:80-82 | Block 4096 is read as block 16 |
| `Blockwise.SizeIsUint` | src/blockwise.cc:106-134 | Of a size option of any accepted length the last three bytes are read as the integer of section 3.2 of RFC 7252, on a big-endian host only if that is below 256 |
| `Blockwise.OneBlockOption` | src/blockwise.cc:216-236 | In any permutation of other options and one block option, that option is the only one of its number |
| `Blockwise.PortIs` | src/blockwise.cc:272-279 | Two bytes read as the port (section 3.2 of RFC 7252) if and only if they are those of the port option |
| `Blockwise.HeaderIs` | src/blockwise.cc:260-332 | A list made of port, path and block option has, counted by value, one option 7 that reads as the port, the segments as options 11, one block option, and no other |
| `BlockwiseFormat.SizeWritten` | src/blockwise.cc:340-352 | The size exponent stands for the size if that is a power of two from 16 to 1024, and for 64 otherwise |
| `BlockwiseFormat.EncodedIs` | src/blockwise.cc:158-211 | How many bytes are pushed for a block and which integer they are, for every number and both byte orders |
| `BlockwiseFormat.DecodedIs` | src/blockwise.cc:47-93 | Number, more bit and size read from a value of any accepted length, for both byte orders |
| `BlockwiseFormat.TotalIs` | src/blockwise.cc:106-134 | The total read from a size option: the integer of its last three bytes, or of its last one on a big-endian host |
| `Blockwise.Blockwise.EncodeBlockOption` | src/blockwise.cc:139-214 | The bytes pushed, and the refusals: other option numbers, sizes, numbers of 2^20 or more |
| `Blockwise.Blockwise.DecodeBlockOption` | src/blockwise.cc:47-93 | The fields set, and the refusals, with the length test narrowed to eight bits |
| `Blockwise.Blockwise.DecodeSizeOption` | src/blockwise.cc:95-137 | The total set, and the refusals |
| `Blockwise.Blockwise.SetHeader` | src/blockwise.cc:260-332 | The options become exactly one option 7 whose two bytes read as the port, one option 11 for each path segment and one block option, sorted; the default size 1024 and the offset of the first block; every refusal |
| `Blockwise.Blockwise.GetHeader` | src/blockwise.cc:216-258 | Succeeds exactly if one block option of acceptable length is present, and then decodes that one |
| `Blockwise.BlockOverTheWire` | src/blockwise.cc:216-332 | set_header, make_request, serialize, parse, get_header, on hosts of any two byte orders: the receiver holds the sender's number, size and more bit if and only if the block survives between them; the arrived packet has one option 7, which reads as the port, the path segments as its options 11, and one block option |
| `Crc8.CalculateCrc` | examples/RASPBERRY-PI/udp-server/RPi-400/src/pico_protocol.cc:85-101 | The nested loops compute the register function; both peers share the code |
| `Crc8.CrcIsRemainder` | examples/RASPBERRY-PI/udp-server/RPi-Pico/src/pico_protocol.cc:52-68 | The checksum is the one reduced polynomial congruent to the preset message modulo x^8+x^5+x^4+1 |
| `Crc8.SameCrc` | examples/RASPBERRY-PI/udp-server/RPi-400/src/pico_protocol.cc:85-101 | Data of equal length have equal checksums if and only if the modulus divides their difference |
| `Crc8.BurstDetected` | examples/RASPBERRY-PI/udp-server/RPi-400/src/pico_protocol.cc:85-101 | A change within eight consecutive bits always changes the checksum |
| `Crc8.OddDetected` | examples/RASPBERRY-PI/udp-server/RPi-400/src/pico_protocol.cc:85-101 | A change of an odd number of bits always changes the checksum |
| `Crc8TwoBits.PairUnnoticed` | examples/RASPBERRY-PI/udp-server/RPi-400/src/pico_protocol.cc:85-101 | A change of two bits goes unnoticed if and only if they are a multiple of 127 bits apart |
| `Crc8TwoBits.OrderIs127` | examples/RASPBERRY-PI/udp-server/RPi-400/src/pico_protocol.cc:92-98 | The register loop returns to 1 after k steps exactly if 127 divides k |
| `SpiDevice.Spi.WriteRead` | examples/RASPBERRY-PI/udp-server/RPi-400/src/spi.cc:90-109 | A transfer sends the bytes up to the offset and receives as many, or fails when the line is short |
| `SpiDevice.Spi.WriteBlocking` | examples/RASPBERRY-PI/udp-server/RPi-400/src/spi.cc:200-204 | The transmit buffer is replaced, so its capacity becomes that of the source, and what it holds up to the offset is sent |
| `SpiDevice.Spi.ReadBlocking` | examples/RASPBERRY-PI/udp-server/RPi-400/src/spi.cc:152-165 | Refuses an empty read and one longer than the transmit buffer's capacity |
| `SpiDevice.Spi.ReadBlockingInto` | examples/RASPBERRY-PI/udp-server/RPi-400/src/spi.cc:118-198 | The same with a destination |
| `PicoFormat.FrameIs` | examples/RASPBERRY-PI/udp-server/RPi-400/src/pico_protocol.cc:103-127 | The frame: A5, 5A, the length, the checksum, the data |
| `PicoFormat.CheckValue` | examples/RASPBERRY-PI/udp-server/RPi-400/src/pico_protocol.cc:85-101 | The checksum of the nine digits 1 to 9 is F7 |
| `PicoMasterProtocol.PicoProtocol.MakeRequest` | examples/RASPBERRY-PI/udp-server/RPi-400/src/pico_protocol.cc:103-127 | Refines the master's step: frame or message-too-long (`FrameIs`) |
| `PicoMasterProtocol.PicoProtocol.SendRequest` | examples/RASPBERRY-PI/udp-server/RPi-400/src/pico_protocol.cc:129-155 | Refines the master's step |
| `PicoMasterProtocol.PicoProtocol.ReceiveHeader` | examples/RASPBERRY-PI/udp-server/RPi-400/src/pico_protocol.cc:157-185 | Refines the master's step |
| `PicoMasterProtocol.PicoProtocol.ReceiveData` | examples/RASPBERRY-PI/udp-server/RPi-400/src/pico_protocol.cc:187-224 | Refines the master's step; the answer is the longest zero-free start of the data (`CStringIs`) |
| `PicoMasterProtocol.PicoProtocol.Transfer` | examples/RASPBERRY-PI/udp-server/RPi-400/src/pico_protocol.cc:29-83 | The state loop refines the run; a call after a finished one returns the old answer and sends nothing |
| `PicoMaster.RunEnds` | examples/RASPBERRY-PI/udp-server/RPi-400/src/pico_protocol.cc:43-77 | Every run of the master ends, in COMPLETE exactly if no error is set, whatever the line delivers |
| `PicoSlaveProtocol.PicoProtocol.ReceiveHeader` | examples/RASPBERRY-PI/udp-server/RPi-Pico/src/pico_protocol.cc:70-96 | Refines the slave's step |
| `PicoSlaveProtocol.PicoProtocol.ReceiveData` | examples/RASPBERRY-PI/udp-server/RPi-Pico/src/pico_protocol.cc:98-127 | Refines the slave's step |
| `PicoSlaveProtocol.PicoProtocol.HandleRequest` | examples/RASPBERRY-PI/udp-server/RPi-Pico/src/pico_protocol.cc:129-148 | Refines the slave's step, with the callback or without; the request is the longest zero-free start of the data (`CStringIs`) |
| `PicoSlaveProtocol.PicoProtocol.MakeAnswer` | examples/RASPBERRY-PI/udp-server/RPi-Pico/src/pico_protocol.cc:150-172 | Refines the slave's step |
| `PicoSlaveProtocol.PicoProtocol.SendAnswer` | examples/RASPBERRY-PI/udp-server/RPi-Pico/src/pico_protocol.cc:174-188 | Refines the slave's step |
| `PicoSlaveProtocol.PicoProtocol.Process` | examples/RASPBERRY-PI/udp-server/RPi-Pico/src/pico_protocol.cc:6-50 | The state loop refines the run; a call after a finished one sends nothing |
| `PicoSlave.RunEnds` | examples/RASPBERRY-PI/udp-server/RPi-Pico/src/pico_protocol.cc:10-48 | Every run of the slave ends, in COMPLETE exactly if no error is set |
| `PicoLink.MasterRuns` | examples/RASPBERRY-PI/udp-server/RPi-400/src/pico_protocol.cc:29-238 | The master completes if and only if, after the bytes clocked in while it sent, the line carries a valid frame (signature, length at most 251, matching checksum) that is not empty and fits the transmit buffer; what it sent and returns |
| `PicoLink.SlaveServes` | examples/RASPBERRY-PI/udp-server/RPi-Pico/src/pico_protocol.cc:6-198 | The slave completes if and only if the line carries a valid frame, the handler succeeds with at most 251 bytes and the line clocks the answer out; what it sent |
| `PicoLink.SlaveRefusesAltered` | examples/RASPBERRY-PI/udp-server/RPi-Pico/src/pico_protocol.cc:98-127 | A frame whose data changed in a burst of eight bits or in an odd number of bits ends in ERROR |
| `PicoLink.MasterRefusesAltered` | examples/RASPBERRY-PI/udp-server/RPi-400/src/pico_protocol.cc:187-224 | The same for the master |
| `PicoLink.SlaveWithPair` | examples/RASPBERRY-PI/udp-server/RPi-Pico/src/pico_protocol.cc:98-127 | Of a frame with two flipped bits in its data: ERROR if their distance is no multiple of 127, and otherwise the run is that of the altered data |
| `PicoLink.AlteredEchoed` | examples/RASPBERRY-PI/udp-server/RPi-Pico/src/pico_protocol.cc:119-147 | Sixteen bytes with bits 0 and 127 flipped, under the original header: the slave completes and echoes the altered data |
| `PicoLink.ExchangeSucceeds` | examples/RASPBERRY-PI/udp-server/RPi-400/src/pico_protocol.cc:29-224 | The streams of a successful exchange: they are coupled, both machines complete on them, and the master has the answer up to its first zero |
| `PicoLink.ExchangeAlwaysSucceeds` | examples/RASPBERRY-PI/udp-server/RPi-400/src/pico_protocol.cc:29-224 | In every coupled run, whatever the two sides sent each other, both machines complete if and only if the request is exchangeable (at most 251 bytes, an answer of 1 to min(251, request + 4) bytes) and no transfer of the master was cut short |
| `PicoLink.DeadLine` | examples/RASPBERRY-PI/udp-server/RPi-400/src/pico_protocol.cc:142-150 | A line on which nothing is clocked: coupled, cut short, and neither machine completes |
| `PicoLink.MasterNotCut` | examples/RASPBERRY-PI/udp-server/RPi-400/src/pico_protocol.cc:129-224 | A master whose transfers are not cut short sends the request and then zeros only, and finds an announced answer that fits whole |
| `PicoLink.SlaveFed` | examples/RASPBERRY-PI/udp-server/RPi-Pico/src/pico_protocol.cc:70-188 | What the slave sends for a request followed by any number of zeros: zeros, and as much of the answer as is clocked out |
| `PicoLink.ExchangeOnlySo` | examples/RASPBERRY-PI/udp-server/RPi-Pico/src/pico_protocol.cc:6-188 | Every coupled run in which both complete is that exchange, byte for byte, and the master returns the answer up to its first zero (`ReturnedIs`) |
| `PicoLink.MasterReturnsAnswer` | examples/RASPBERRY-PI/udp-server/RPi-400/src/pico_protocol.cc:217-219 | The master returns exactly the handler's answer if and only if the answer has no zero byte; with a null callback and no zero byte, the request |
| `PicoFrame.CStringIs` | examples/RASPBERRY-PI/udp-server/RPi-400/src/pico_protocol.cc:217-219 | The string read from a buffer is the longest start of the data without a zero byte, and nothing else is |
| `PicoFormat.ReturnedIs` | examples/RASPBERRY-PI/udp-server/RPi-400/src/pico_protocol.cc:217-219 | In every coupled run in which both complete the master returns the longest zero-free start of the handler's answer |
| `PicoFormat.AnswerIs` | examples/RASPBERRY-PI/udp-server/RPi-Pico/src/pico_protocol.cc:129-148 | The handler is called with the longest zero-free start of the request; without one that is the answer |
| `PicoFormat.MasterOutcome` | examples/RASPBERRY-PI/udp-server/RPi-400/src/pico_protocol.cc:29-224 | The error of every run of the master, whatever the line delivers, with the lengths and signature as numbers; it completes exactly if there is none |
| `PicoFormat.SlaveOutcome` | examples/RASPBERRY-PI/udp-server/RPi-Pico/src/pico_protocol.cc:6-188 | The error of every run of the slave, whatever the line delivers; it completes exactly if there is none |
| `SafeQueues.FirstInFirstOut` | src/unix/unix_safe_queue.h:51-77 | Values leave in the order in which they came, each once |
| `SafeQueues.SafeQueue.Push` | src/unix/unix_safe_queue.h:51-63 | Appends, and refuses a null pointer |
| `SafeQueues.SafeQueue.Pop` | src/unix/unix_safe_queue.h:65-77 | Takes the front, or returns null from an empty queue |
| `SafeQueues.SafeQueue.FrontValue` | src/unix/unix_safe_queue.h:79-89 | Returns the front without taking it |
| `SafeQueues.SafeQueue.Clear` | examples/POSIX/common/udp_server.cc:85-94 | Frees every payload in the queue, each once |
| `UdpRuns.PoolOfConnections` | examples/POSIX/common/udp_server.cc:210-347 | In every reachable state: at most ten connections, at most one per client where addresses are copied and at most one at all where they are shared, and connections and threads in bijection but for the one being erased |
| `UdpRuns.LookupFinds` | examples/POSIX/common/udp_server.cc:267-298 | The lookup finds exactly the sender's connection where addresses are copied, and any connection there is where they are shared |
| `UdpRuns.RemovalFindsThread` | examples/POSIX/common/udp_server.cc:214-228 | The search for the thread of a connection never fails |
| `UdpRuns.LookupFindsServed` | examples/POSIX/common/udp_server.cc:267-298 | A connection the lookup returns as live has a worker that has not stopped |
| `UdpAccepts.NewClientAccepted` | examples/POSIX/common/udp_server.cc:300-347 | From every reachable idle state a datagram of a client without a connection opens exactly one if and only if there are fewer than ten: for its address, with that datagram in its queue, a running worker and a thread of its own; at ten nothing but the listener's variable changes |
| `UdpAccepts.KnownClientQueued` | examples/POSIX/common/udp_server.cc:319-346 | A datagram of a client with a live connection ends up last in its queue, and nothing else changes |
| `UdpAccepts.ExpiredClientServed` | examples/POSIX/common/udp_server.cc:286-347 | A datagram of a client whose connection has expired: the listener and the worker alone take that connection out and open a new one, which has got the datagram; no other connection changes |
| `UdpAccepts.EmptyIgnored` | examples/POSIX/common/udp_server.cc:313-317 | A reception that failed or was empty changes nothing but the listener's variable |
| `UdpAccepts.FrontGetsHandled` | examples/POSIX/common/udp_server.cc:459-477 | In seven steps the worker of a live connection hands the first payload to the handler, which echoes and frees it, and changes nothing else but the error of the send |
| `UdpAccepts.ExpiredStops` | examples/POSIX/common/udp_server.cc:465-471 | The worker of an expired connection stops, and what waits stays in the queue |
| `UdpAccepts.EmptyQueueWaits` | examples/POSIX/common/udp_server.cc:459-461 | A worker with nothing to handle waits |
| `UdpAccepts.LateTickRenewed` | examples/POSIX/common/udp_server.cc:473-476 | A lifetime that ends when a payload was found is renewed before the handler is called |
| `UdpEchoes.EchoToClient` | examples/POSIX/common/udp_server.cc:551-565 | Where addresses are copied an echo goes to the address of the connection's first datagram: always the host its payload came from, and its sender if and only if the port is that of the first |
| `UdpEchoes.EchoToLatest` | examples/POSIX/common/udp_server.cc:558-563 | Where addresses are shared an echo goes to its payload's sender if and only if that sent the latest datagram |
| `UdpEchoes.SecondPortAnsweredAtFirst` | examples/POSIX/common/udp_server.cc:282-283 | A datagram from a second port of a host is answered at the first port |
| `UdpEchoes.AnsweredToAnother` | examples/POSIX/common/udp_server.cc:193-198 | Where addresses are shared, one client's datagram is answered to another |
| `UdpRuns.PayloadsConserved` | examples/POSIX/common/udp_server.cc:27-94 | In every reachable state each payload is in one queue, held by one handler, freed once, or lost: exactly one of these, and once |
| `UdpRuns.LosesExactly` | examples/POSIX/udp-echo-server/udp-echo-server.cc:16-29 | A step loses a payload if and only if a handler takes one after a send of its connection has failed |
| `UdpRuns.FailsExactly` | examples/POSIX/common/udp_server.cc:447-483 | The error code of a worker is set by a failed send and by nothing else, and is never cleared |
| `UdpRuns.NothingLost` | examples/POSIX/common/udp_server.cc:447-565 | In every run in which each send succeeds nothing is lost |
| `UdpRuns.LossReachable` | examples/POSIX/common/udp_server.cc:449-476 | A run of two datagrams from one client in which the first send fails and the second payload is lost |
| `UdpRuns.HandledInOrder` | examples/POSIX/common/udp_server.cc:459-477 | The handler gets the real payloads in the order of arrival; the rest waits in the queue, unless the connection is being erased |
| `UdpRuns.FrontStays` | examples/POSIX/common/udp_server.cc:461-476 | A worker past the wait always finds a payload, and the one it looked at |
| `UdpRuns.AtMostOneMoreCall` | examples/POSIX/common/udp_server.cc:459-482 | After the flag is cleared a worker calls the handler at most once more |
| `UdpRemovals.JoinWaitsBriefly` | examples/POSIX/common/udp_server.cc:219-234 | However the threads interleave, a worker being joined takes at most four more steps |
| `UdpRemovals.JoinReturns` | examples/POSIX/common/udp_server.cc:233-234 | A worker being joined is never blocked: on its own it reaches the end and the join returns |
| `UdpRemovals.RemovalFinishes` | examples/POSIX/common/udp_server.cc:235-246 | After the join the removal frees exactly what waits, erases the connection and lets the waiting datagram go on as a new client's |
| `UdpRemovals.RemovalInEveryRun` | examples/POSIX/common/udp_server.cc:219-246 | In every run from the start of a removal on the connection is gone, or fewer than 5 * (queue + 6) steps of the remover and of the worker it waits for have been taken and one of the two can take the next |
| `UdpRemovals.RemovalCompletes` | examples/POSIX/common/udp_server.cc:210-250 | From its start the removal can be taken to its end by the remover and the worker alone: the connection and nothing else leaves the pool, and the waiting datagram goes on as a new client's |
| `UdpAccepts.RemoverRemoves` | examples/POSIX/common/udp_server.cc:210-250 | From every reachable idle state the remover takes any connection out of the pool, with nothing but steps of its own and of the worker, and leaves the others as they are |
| `UdpPool.PoolStep` | examples/POSIX/common/udp_server.cc:210-347 | Every step keeps the pool invariant |
| `UdpPool.SeparateStep` | examples/POSIX/common/udp_server.cc:267-347 | Every step keeps the connections of different clients apart |
| `UdpConnections.WorkerKeepsConn` | examples/POSIX/common/udp_server.cc:447-483 | Every worker step keeps the invariant of its connection |
| `UdpPayloads.OwnedStep` | examples/POSIX/common/udp_server.cc:72-94 | Every step moves payloads between owners without copying or dropping one unrecorded |
| `UriPaths.PathRoundTrip` | src/uri.cc:48-111 | Reading a printed path gives the same segments if and only if it is under 256 characters and the list is not empty and, for strings, no segment is empty or holds a slash or a zero and the first does not start in 0x30..0x3F, for integers, the first is not negative |
| `UriPaths.ReadPrintedAgain` | src/uri.cc:48-111 | Printing an accepted path and reading it again gives the same segments if and only if the printed path is under 256 characters |
| `UriPaths.LongestPathNotRepeated` | src/uri.cc:54-57 | An accepted path of 255 characters whose printed form is refused |
| `UriPaths.UriPath.PathToUri` | src/uri.cc:48-91 | The strtok loop appends to the lists what the specification reads, or changes nothing |
| `UriPaths.UriPath.UriToPath` | src/uri.cc:93-111 | Appends the printed form, which `PrintsStrings` and `PrintsIntegers` spell out |
| `UriFormat.PrintsStrings` | src/uri.cc:95-102 | Each segment is printed behind the previous ones with a slash in front |
| `UriFormat.PrintsIntegers` | src/uri.cc:103-110 | Each number is printed behind the previous ones with a slash in front, as its numeral without leading zeros |
| `UriFormat.ReadsPath` | src/uri.cc:48-91 | A path of up to 255 characters with a segment is read; as numbers exactly if the first character of its first segment has a code from 48 to 63 |
| `UriFormat.ReadsSlashes` | src/uri.cc:61-88 | Repeated and trailing slashes do not matter |
| `TextFormat.CStrIs` | src/uri.cc:59-61 | What a C function sees of a string is its start in front of the first zero, and nothing else |
| `TextFormat.TokensSplit` | src/uri.cc:61-88 | A separator divides a string into the tokens in front of it and those behind it |
| `TextFormat.TokensWithin` | src/uri.cc:61-88 | A string without the separator is its own token, unless it is empty |
| `TextFormat.PrintsNumeral` | src/uri.cc:108 | A number is printed as the one string of digits that reads as it and has no leading zero, behind a minus sign if it is negative |
| `TextFormat.StrtolIs` | src/uri.cc:85 | strtol on any text: spaces, perhaps a sign, digits; the number of the digits, limited to the host's long |
| `Text.NextToken` | src/uri.cc:61-88 | One call of strtok: the token and where the next call goes on |
| `Text.TokensComeBack` | src/uri.cc:61-88 | Tokens led by separators come back if and only if each is not empty and free of the separator |
| `Text.StrtolPrinted` | src/uri.cc:85-108 | strtol reads back every printed number of the host's long |
| `CoreLinks.CoreLinkRoundTrip` | src/core_link.cc:45-167 | Parsing a printed list into a fresh object gives the same records if and only if no text holds a comma or a zero, no path a '>', no name a ';' or '=', strings are not empty and hold no ';' and no quote past the first character, and numbers fit the host's long |
| `CoreLinks.RecordRoundTrip` | src/core_link.cc:109-167 | The same for one record |
| `CoreLinks.ParametersRoundTrip` | src/core_link.cc:136-164 | The same for a parameter list |
| `CoreLinks.QuotedSemicolonIsLost` | src/core_link.cc:138-153 | A quoted semicolon does not come back |
| `CoreLinks.CoreLink.CreateCoreLink` | src/core_link.cc:45-73 | The nested loops build the printed form, which `PrintsRecord`, `PrintsValue` and `PrintsList` spell out; an empty list is refused |
| `CoreLinks.CoreLink.ParseRecord` | src/core_link.cc:109-167 | Refines the record reader; a bad record adds nothing |
| `CoreLinks.CoreLink.ParseParameters` | src/core_link.cc:134-164 | The search loop refines the recursive parameter reader |
| `CoreLinks.CoreLink.ParseCoreLink` | src/core_link.cc:75-107 | The strtok loop appends the records up to the first bad one |
| `CoreLinkFormat.PrintsValue` | src/core_link.cc:65-68 | A parameter is printed as a semicolon, its name, an equals sign, and the numeral without leading zeros or the string in quotes |
| `CoreLinkFormat.PrintsRecord` | src/core_link.cc:59-69 | A record is printed as its path between "</" and ">" and its parameters one after the other |
| `CoreLinkFormat.PrintsList` | src/core_link.cc:55-72 | Records are printed with commas between them |
| `CoreLinkFormat.PrintsExample` | src/core_link.cc:45-73 | Two records, character by character |
| `CoreLinkFormat.ReadsRecord` | src/core_link.cc:109-167 | A line with both brackets: the parameters behind the first closing one; the path without "</" is what stands between the brackets, otherwise what follows the first "</", up to that bracket or, if the bracket comes first, to the end |
| `CoreLinkFormat.NeedsBrackets` | src/core_link.cc:113-119 | Only lines with an opening and then a closing bracket are accepted |
| `CoreLinkFormat.ReadsSensors` | src/core_link.cc:121-132 | `<sensors>` is the path "sensors" without parameters |
| `CoreLinkFormat.ReadsParameter` | src/core_link.cc:136-164 | Behind a semicolon: the name in front of the next equals sign, the value behind it, and then the parameters of the text behind the semicolon |
| `CoreLinkFormat.ReadsNoParameter` | src/core_link.cc:138-146 | Without a semicolon there is no parameter; a semicolon without an equals sign is refused |
| `CoreLinkFormat.ReadsQuoted` | src/core_link.cc:150-155 | A quoted value is its first character and what follows up to the next quote |
| `CoreLinkFormat.ReadsUnquoted` | src/core_link.cc:156-161 | Any other value is the number in front of the next semicolon, modulo 2^32 |
| `CoreLinkFormat.ReadsComma` | src/core_link.cc:75-107 | A comma divides a text: what is behind it is parsed if nothing in front was refused |
| `CoreLinkFormat.ReadsLine` | src/core_link.cc:75-107 | A text without a comma is one record, or none if it is empty; a zero ends it |
| `Base64.DecodeInvertsEncode` | src/base64.cc:52-133 | Decoding what was encoded gives every non-empty byte string back; the text has 4*ceil(n/3) characters and is canonical |
| `Base64.EncodeAfterDecode` | src/base64.cc:52-133 | Encoding what was decoded gives the text back if and only if it is canonical: alphabet, padding, zero spare bits |
| `Base64.GroupInverse` | src/base64.cc:73-83 | One group of three bytes and four characters, with every padding |
| `Base64Format.EncodesStandard` | src/base64.cc:52-88 | A text is the encoding of the data if and only if it has 4*ceil(n/3) characters, character i is the one the alphabet "A..Za..z0..9+/" has for the bits 6i to 6i+5 if any of them is in the data, and all others are "=" |
| `Base64Format.DecodesStandard` | src/base64.cc:90-133 | What any text decodes to, byte by byte: byte i is the bits 8i to 8i+7 of the places of its characters, zero for characters outside the alphabet; a byte less for each "=" among the last two |
| `Base64Object.Base64Encoder.DecodingTableInit` | src/base64.cc:25-29 | The table inverts the alphabet and is zero elsewhere |
| `Base64Object.Base64Encoder.Encode` | src/base64.cc:52-88 | The loop writes the encoding, its padding and the terminator |
| `Base64Object.Base64Encoder.Decode` | src/base64.cc:90-133 | The loop writes the decoded bytes, dropping those past the decoded size; lengths that are no multiple of four are refused |
| `EthernetFrames.CopyPbuf` | examples/NUCLEO-F429ZI/udp-server/LwIP/Target/ethernetif.c:361-392 | One pbuf is copied from where the frame has got to, over as many buffers as it takes, or a descriptor it needs is not free |
| `EthernetFrames.LowLevelOutput` | examples/NUCLEO-F429ZI/udp-server/LwIP/Target/ethernetif.c:338-412 | Succeeds exactly if every descriptor needed is free; then the frame length is the total of the pbufs, and byte k of them is at [(start + k / 1524) % 4, k % 1524] of the ring, of a total too long for it the last 6096 |
| `EthernetFrames.ConcatJoins` | examples/NUCLEO-F429ZI/udp-server/LwIP/Target/ethernetif.c:352-392 | The bytes of a chain of pbufs are those of its first part and then those of the rest |
| `EthernetFrames.FrameWraps` | examples/NUCLEO-F429ZI/udp-server/LwIP/Target/ethernetif.c:371-386 | A byte of a frame too long for the ring is overwritten by the one a whole ring behind it |
| `EthernetFrames.LowLevelInput` | examples/NUCLEO-F429ZI/udp-server/LwIP/Target/ethernetif.c:422-476 | Each pbuf is filled, and byte k of them is the one at [(start + k / 1524) % 4, k % 1524] of the ring |
| `EthernetFrames.ThroughTheRing` | examples/NUCLEO-F429ZI/udp-server/LwIP/Target/ethernetif.c:352-475 | Scattering any chain and gathering it into any chain of the same total restores the bytes, all of them if they fit the ring and otherwise the last that do |

## Left out

- Sockets, name resolution, DTLS and TLS clients, lwIP and HAL set-up, the `select` loop, the SPI `ioctl`, logging: foreign calls.
- `src/senml_json.cc`: nearly all of it calls cJSON, which is not part of this model.
- `src/unix/unix_endpoint.cc`, `src/command.cc`, `rtc.c`, `utils.cc` and the other example programs: stubs, tables and plumbing.
- Heap exhaustion, null-pointer guards that abort, and deallocation outside the payloads of the UDP server.
- The bit-field layout of the CoAP header: version, type and token length are read from the low-order layout of a little-endian compiler for both values of `littleEndian`.
- The in-memory header byte of an option, which only holds nibbles on the way in.
- `std::error_code` categories and texts: errors are tags.
- PacketClass.Packet.Serialize: asks for memory behind the buffer as far as the pass writes, `Room(size)`; what happens to memory that is not the caller's is not modelled. `WritesInside` says when `size` bytes are enough.
- PacketClass.Packet.SortOptions: does not promise the order among equal option numbers, because `std::sort` does not.
- PacketClass.Packet.MakeRequest: the token is an argument; the random generator is not modelled. `prepare_answer` is the same without a token.
- SpiDevice.Spi.WriteRead: chip select, speed and the splitting of a transfer by the driver are not modelled; a line delivers a byte for each byte sent or is short.
- UdpRuns.LookupFinds: with shared addresses the listener's variable is taken to be at the same place in every turn of its loop, which the language leaves open.
- Wall-clock time in the UDP server: any connection may expire at any moment; sleeps are dropped. Removal by the remover or by `shutdown` may start for any connection whenever the pool is free; that both erase while they iterate is not modelled.
- A null receive callback of the UDP server, with which a worker spins on its first payload, and handlers other than the echo handler.
- The condition variable of the queue is the enabling condition of the worker's wait; lost or spurious wake-ups are not modelled.
- CoreLinks.CoreLink.ParseCoreLink: the copy handed to `strtok` has no terminating zero in the code; the model reads the text itself. A number is a 32-bit unsigned value read through the host's `long`.
- Base64Object.Base64Encoder.Decode: does not model the empty text, for which the code reads the two bytes in front of the text, nor a signed `char`, with which it reads in front of its table.
- Blockwise.Blockwise.DecodeSizeOption: the fourth byte's branch is left out, because the length test never lets four bytes through.
- EthernetFrames.LowLevelOutput: the 32-bit counters do not wrap, ownership bits do not change during the copy, and the size of a buffer, 1524 bytes, is that of the HAL header, which is not part of this model; their number is that of `stm32f4xx_hal_conf.h`.
- Semaphores, the hand-over of descriptors to the DMA engine and the PHY code around the copy loops.
