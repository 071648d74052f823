/**
 The Block1 and Block2 options (section 2.2 of RFC 7959): number, more bit and size
 exponent packed into one to three bytes, and their way through a packet.
 */
module Blockwise {
  import opened Bytes
  import opened CoapWire
  import opened CoapRoundTrip
  import opened CoapOptions
  import opened PacketClass

  const URI_PORT := 7
  const URI_PATH := 11
  const BLOCK_2 := 23
  const BLOCK_1 := 27
  const BLOCK_MAX_SIZE := 1024
  const MAX_BLOCKS := 1048576

  datatype Block = Block(number: nat, size: uint16, more: bool)

  // --------------------------------------------------------------- one option

  function SizeOption(size: nat): nat {
    if size == 16 then 0 else if size == 32 then 1 else if size == 64 then 2 else if size == 128 then 3
    else if size == 256 then 4 else if size == 512 then 5 else if size == 1024 then 6 else 2
  }

  predicate Encodable(b: Block) {
    b.size % 16 == 0 && b.size <= BLOCK_MAX_SIZE && b.number < MAX_BLOCKS
  }

  /** The low four bits of the last byte. */
  function LowBits(b: Block): nat { SizeOption(b.size) + if b.more then 8 else 0 }

  /**
   The bytes pushed for a block. Shifted parts that the code joins with `|` have no
   bits in common, so they are added.
   */
  function EncodeBlock(b: Block, littleEndian: bool): seq<byte>
    requires Encodable(b)
  {
    var n := b.number;
    if n < 16 then [16 * n + LowBits(b)]
    else if n < 4096 then
      if littleEndian then [n % 256 / 16 + 16 * (n / 256), 16 * (n % 16) + LowBits(b)]
      else [0, LowBits(b)]
    else
      if littleEndian then
        [n % 256, n / 256 % 256 / 16 + 16 * (n / 65536), 16 * (n / 256 % 16) + LowBits(b)]
      else
        [0, 16 * (n / 256 % 16), 16 * (n / 65536) + LowBits(b)]
  }

  /** The length test narrows its argument to eight bits. */
  predicate LengthAccepted(length: nat) { 1 <= length % 256 <= 3 }

  function Power2(e: nat): nat { if e == 0 then 1 else 2 * Power2(e - 1) }

  function DecodeNumber(v: seq<byte>, littleEndian: bool): nat
    requires v != []
  {
    var first: nat, last: nat := v[0], v[|v| - 1];
    if |v| == 1 then last / 16
    else
      var middle: nat := v[|v| - 2];
      if littleEndian then last / 16 + 16 * middle + if |v| == 3 then 4096 * first else 0
      else 16 * last + middle / 16
  }

  function DecodeBlock(v: seq<byte>, littleEndian: bool): Block
    requires v != []
  {
    var last := v[|v| - 1];
    Block(DecodeNumber(v, littleEndian), DecodeSize(last % 8), last / 8 % 2 == 1)
  }

  function DecodeSize(szx: nat): uint16
    requires szx < 8
  {
    assert Power2(szx + 4) <= 2048 by { SmallPowers(); }
    Power2(szx + 4)
  }

  lemma SmallPowers()
    ensures Power2(4) == 16 && Power2(5) == 32 && Power2(6) == 64 && Power2(7) == 128
    ensures Power2(8) == 256 && Power2(9) == 512 && Power2(10) == 1024 && Power2(11) == 2048
  {
  }

  /** Eight bits of rotation of the twenty-bit number: what becomes of a three-byte number. */
  function Rotated(n: nat): nat { n % 256 * 4096 + n / 256 }

  /**
   The block numbers that come back. A little-endian host loses those above 4095 unless
   their five hexadecimal digits are equal; a big-endian host keeps little beyond one byte.
   */
  predicate NumberSurvives(b: Block, littleEndian: bool) {
    || b.number < 16
    || (if littleEndian then b.number < 4096 || b.number % 0x1_1111 == 0 else b.number == 16 * LowBits(b))
  }

  predicate SizeSurvives(size: nat) { size in [16, 32, 64, 128, 256, 512, 1024] }

  lemma RotatedFixpoint(n: nat)
    requires n < MAX_BLOCKS
    ensures Rotated(n) == n <==> n % 0x1_1111 == 0
  {
    var a, b := n / 256, n % 256;
    assert n == 256 * a + b;
    if Rotated(n) == n {
      assert 273 * b == 17 * a;
      var k := a - 16 * b;
      assert n == 0x1_1111 * k;
      Divides(n, 0x1_1111, k, 0);
    }
    if n % 0x1_1111 == 0 {
      var k := n / 0x1_1111;
      assert n == 0x1_1111 * k;
      Divides(n, 256, 273 * k, 17 * k);
    }
  }

  /** Quotient and remainder of a number given by its parts. */
  lemma Divides(n: nat, d: nat, q: nat, r: nat)
    requires d in [16, 256, 65536, 0x1_1111] && n == d * q + r && r < d
    ensures n / d == q && n % d == r
  {
    if d == 16 { assert n == 16 * q + r; }
    else if d == 256 { assert n == 256 * q + r; }
    else if d == 65536 { assert n == 65536 * q + r; }
    else { assert n == 0x1_1111 * q + r; }
  }

  /** The pieces the code cuts a twenty-bit number into. */
  lemma Digits(t: nat, u: nat, w: nat, c: nat)
    requires t < 16 && u < 16 && w < 16 && c < 256
    ensures var n := 65536 * t + 4096 * u + 256 * w + c;
            && n / 65536 == t && n % 256 == c && n / 256 == 256 * t + 16 * u + w
            && n / 256 % 256 / 16 == u && n / 256 % 16 == w
  {
    var n := 65536 * t + 4096 * u + 256 * w + c;
    Divides(n, 65536, t, 4096 * u + 256 * w + c);
    Divides(n, 256, 256 * t + 16 * u + w, c);
    Divides(256 * t + 16 * u + w, 256, t, 16 * u + w);
    Divides(16 * u + w, 16, u, w);
    Divides(256 * t + 16 * u + w, 16, 16 * t + u, w);
  }

  /** The number the decoder finds in what the encoder wrote. */
  function NumberSeen(b: Block, littleEndian: bool): nat {
    var n := b.number;
    if n < 16 then n
    else if littleEndian then (if n < 4096 then n else Rotated(n))
    else if n < 4096 then 16 * LowBits(b)
    else 256 * (n / 65536) + 16 * LowBits(b) + n / 256 % 16
  }

  lemma NumberRead(b: Block, littleEndian: bool)
    requires Encodable(b)
    ensures DecodeNumber(EncodeBlock(b, littleEndian), littleEndian) == NumberSeen(b, littleEndian)
  {
    hide SizeOption, LowBits;
    LowBitsRange(b);
    if 16 <= b.number < 4096 {
      TwoBytesRead(b, littleEndian);
    } else if 4096 <= b.number {
      ThreeBytesRead(b, littleEndian);
    }
  }

  lemma TwoBytesRead(b: Block, littleEndian: bool)
    requires 16 <= b.number < 4096 && Encodable(b)
    ensures DecodeNumber(EncodeBlock(b, littleEndian), littleEndian) == NumberSeen(b, littleEndian)
  {
    hide SizeOption, LowBits;
    var n, low := b.number, LowBits(b);
    LowBitsRange(b);
    var u, w, c := n / 256, n / 16 % 16, n % 16;
    assert n == 256 * u + 16 * w + c;
    Divides(n, 256, u, 16 * w + c);
    Divides(16 * w + c, 16, w, c);
    Divides(16 * c + low, 16, c, low);
  }

  lemma ThreeBytesRead(b: Block, littleEndian: bool)
    requires 4096 <= b.number && Encodable(b)
    ensures DecodeNumber(EncodeBlock(b, littleEndian), littleEndian) == NumberSeen(b, littleEndian)
  {
    hide SizeOption, LowBits, EncodeBlock;
    var n, low := b.number, LowBits(b);
    LowBitsRange(b);
    FiveDigits(n);
    var t, u, w, c := n / 65536, n / 4096 % 16, n / 256 % 16, n % 256;
    Digits(t, u, w, c);
    ThreeBytes(b, littleEndian, t, u, w, c);
    Divides(16 * w + low, 16, w, low);
    Divides(16 * w, 16, w, 0);
  }

  lemma ThreeBytes(b: Block, littleEndian: bool, t: nat, u: nat, w: nat, c: nat)
    requires 4096 <= b.number && Encodable(b)
    requires var n := b.number;
             t < 16 && u < 16 && w < 16 && c < 256 &&
             n / 65536 == t && n % 256 == c && n / 256 % 256 / 16 == u && n / 256 % 16 == w
    ensures LowBits(b) < 15
    ensures EncodeBlock(b, littleEndian) ==
              if littleEndian then [c, u + 16 * t, 16 * w + LowBits(b)] else [0, 16 * w, 16 * t + LowBits(b)]
  {
    LowBitsRange(b);
  }

  lemma FiveDigits(n: nat)
    requires n < MAX_BLOCKS
    ensures n / 65536 < 16
    ensures n == 65536 * (n / 65536) + 4096 * (n / 4096 % 16) + 256 * (n / 256 % 16) + n % 256
  {
    var x := n / 256;
    assert n == 256 * x + n % 256;
    var y := x / 16;
    assert x == 16 * y + x % 16;
    assert y == 16 * (y / 16) + y % 16;
    assert n / 4096 == y && n / 65536 == y / 16;
  }

  lemma LowBitsAre(b: Block)
    ensures LowBits(b) == SizeOption(b.size) + if b.more then 8 else 0
  {
  }

  lemma LowBitsRange(b: Block)
    ensures LowBits(b) < 15
  {
  }

  /** A big-endian host never gets a number of three bytes back. */
  lemma BigEndianLoses(b: Block)
    requires Encodable(b)
    ensures b.number >= 4096 ==> NumberSeen(b, false) < 4096
  {
    LowBitsRange(b);
  }

  /** Decoding what was encoded gives the block back exactly if its number and its size survive. */
  lemma BlockRoundTrip(b: Block, littleEndian: bool)
    requires Encodable(b)
    ensures DecodeBlock(EncodeBlock(b, littleEndian), littleEndian) == b
            <==> NumberSurvives(b, littleEndian) && SizeSurvives(b.size)
  {
    var v := EncodeBlock(b, littleEndian);
    hide LowBits, SizeOption, Power2, EncodeBlock, DecodeNumber;
    NumberRead(b, littleEndian);
    BigEndianLoses(b);
    SizeRead(b.size);
    RotatedFixpoint(b.number);
    LastByte(b, littleEndian);
  }

  /** The first number of three bytes: a little-endian host reads block 16 where block 4096 was written. */
  lemma Block4096Misread(size: uint16, more: bool)
    requires SizeSurvives(size)
    ensures DecodeBlock(EncodeBlock(Block(4096, size, more), true), true).number == 16
  {
    hide LowBits, SizeOption, Power2, EncodeBlock, DecodeNumber;
    NumberRead(Block(4096, size, more), true);
  }

  /** The number that a host of the other byte order finds in what the encoder wrote. */
  function NumberAcross(b: Block, littleEndian: bool): nat {
    var n := b.number;
    if n < 16 then n
    else if littleEndian then
      if n < 4096 then 256 * (n % 16) + 16 * LowBits(b) + n / 256
      else 256 * (n / 256 % 16) + 16 * LowBits(b) + n / 65536
    else if n < 4096 then 0
    else 256 * (n / 256 % 16) + n / 65536
  }

  /** The numbers that get across: those of one byte, and a few of two bytes that a little-endian host sends. */
  predicate NumberCrosses(b: Block, littleEndian: bool) {
    || b.number < 16
    || (littleEndian && b.number < 4096 && b.number / 256 == b.number % 16 && b.number / 16 % 16 == LowBits(b))
  }

  lemma NumberReadAcross(b: Block, littleEndian: bool)
    requires Encodable(b)
    ensures DecodeNumber(EncodeBlock(b, littleEndian), !littleEndian) == NumberAcross(b, littleEndian)
  {
    hide SizeOption, LowBits;
    LowBitsRange(b);
    if 16 <= b.number < 4096 {
      TwoBytesReadAcross(b, littleEndian);
    } else if 4096 <= b.number {
      ThreeBytesReadAcross(b, littleEndian);
    }
  }

  lemma TwoBytesReadAcross(b: Block, littleEndian: bool)
    requires 16 <= b.number < 4096 && Encodable(b)
    ensures DecodeNumber(EncodeBlock(b, littleEndian), !littleEndian) == NumberAcross(b, littleEndian)
  {
    hide SizeOption, LowBits;
    var n, low := b.number, LowBits(b);
    LowBitsRange(b);
    var u, w, c := n / 256, n / 16 % 16, n % 16;
    assert n == 256 * u + 16 * w + c;
    Divides(n, 256, u, 16 * w + c);
    Divides(16 * w + c, 16, w, c);
    Divides(16 * u + w, 16, u, w);
    Divides(low, 16, 0, low);
  }

  lemma ThreeBytesReadAcross(b: Block, littleEndian: bool)
    requires 4096 <= b.number && Encodable(b)
    ensures DecodeNumber(EncodeBlock(b, littleEndian), !littleEndian) == NumberAcross(b, littleEndian)
  {
    hide SizeOption, LowBits, EncodeBlock;
    var n, low := b.number, LowBits(b);
    LowBitsRange(b);
    FiveDigits(n);
    var t, u, w, c := n / 65536, n / 4096 % 16, n / 256 % 16, n % 256;
    Digits(t, u, w, c);
    ThreeBytes(b, littleEndian, t, u, w, c);
    Divides(16 * t + u, 16, t, u);
    Divides(16 * t + low, 16, t, low);
  }

  lemma CrossesExactly(b: Block, littleEndian: bool)
    requires Encodable(b)
    ensures NumberAcross(b, littleEndian) == b.number <==> NumberCrosses(b, littleEndian)
  {
    hide LowBits;
    LowBitsRange(b);
    var n := b.number;
    if n < 4096 {
      var u, w, c := n / 256, n / 16 % 16, n % 16;
      assert n == 256 * u + 16 * w + c;
    } else {
      FiveDigits(n);
    }
  }

  /** Between hosts of any two byte orders a block arrives exactly if its number and its size do. */
  lemma BlockBetweenHosts(b: Block, from: bool, to: bool)
    requires Encodable(b)
    ensures DecodeBlock(EncodeBlock(b, from), to) == b
            <==> (if from == to then NumberSurvives(b, from) else NumberCrosses(b, from)) && SizeSurvives(b.size)
  {
    if from == to {
      BlockRoundTrip(b, from);
    } else {
      hide LowBits, SizeOption, Power2, EncodeBlock, DecodeNumber, NumberAcross, NumberCrosses;
      NumberReadAcross(b, from);
      CrossesExactly(b, from);
      SizeRead(b.size);
      LastByte(b, from);
    }
  }

  lemma SizeRead(size: nat)
    ensures SizeOption(size) < 8
    ensures DecodeSize(SizeOption(size)) == size <==> SizeSurvives(size)
  {
    SmallPowers();
  }

  lemma BlockLength(b: Block, littleEndian: bool)
    requires Encodable(b)
    ensures 1 <= |EncodeBlock(b, littleEndian)| <= 3
  {
  }

  lemma LastByte(b: Block, littleEndian: bool)
    requires Encodable(b)
    ensures var last := EncodeBlock(b, littleEndian)[|EncodeBlock(b, littleEndian)| - 1];
            last % 8 == SizeOption(b.size) && (last / 8 % 2 == 1 <==> b.more)
  {
    var n := b.number;
    var high :=
      if n < 16 then n
      else if n < 4096 then (if littleEndian then n % 16 else 0)
      else if littleEndian then n / 256 % 16 else n / 65536;
    assert EncodeBlock(b, littleEndian)[|EncodeBlock(b, littleEndian)| - 1] == 16 * high + LowBits(b);
    SplitsByte(high, SizeOption(b.size), if b.more then 1 else 0);
  }

  lemma SplitsByte(high: nat, szx: nat, more: nat)
    requires szx < 8 && more < 2
    ensures (16 * high + (szx + 8 * more)) % 8 == szx
    ensures (16 * high + (szx + 8 * more)) / 8 % 2 == more
  {
  }

  // ---------------------------------------------------- the size option

  /** The unsigned integer in network byte order that section 3.2 of RFC 7252 describes. */
  function Uint(v: seq<byte>): nat {
    if v == [] then 0 else 256 * Uint(v[..|v| - 1]) + v[|v| - 1]
  }

  function DecodeSizeValue(v: seq<byte>, littleEndian: bool): nat
    requires v != []
  {
    var n := |v|;
    var last: nat := v[n - 1];
    if n == 1 || !littleEndian then last
    else
      var middle: nat := v[n - 2];
      256 * middle + last + if n >= 3 then (var top: nat := v[n - 3]; 65536 * top) else 0
  }

  /** The last `k` bytes, or all of them. */
  function Last(v: seq<byte>, k: nat): seq<byte> { if |v| <= k then v else v[|v| - k..] }

  /**
   Of a size option of any accepted length a little-endian host reads the last three bytes as the
   standard means them, and other hosts the last byte.
   */
  lemma SizeIsUint(v: seq<byte>, littleEndian: bool)
    requires LengthAccepted(|v|)
    ensures DecodeSizeValue(v, littleEndian) == Uint(Last(v, 3)) <==> littleEndian || Uint(Last(v, 3)) < 256
  {
    UintOf(Last(v, 3));
    hide Uint;
  }

  // ------------------------------------------- block options as integers

  /** Section 2.2 of RFC 7959: a block option is an integer, the number above four bits for more and size. */
  function BlockUint(b: Block): nat { 16 * b.number + LowBits(b) }

  /** The bytes above the last one. */
  function Above(v: seq<byte>): nat
    requires 1 <= |v| <= 3
  {
    var first: nat := v[0];
    if |v| == 1 then 0
    else if |v| == 2 then first
    else (var middle: nat := v[1]; 256 * first + middle)
  }

  lemma UintOf(v: seq<byte>)
    requires 1 <= |v| <= 3
    ensures var last: nat := v[|v| - 1]; Uint(v) == 256 * Above(v) + last
  {
    var n := |v|;
    if n > 1 {
      assert v[..n - 1][..n - 2] == v[..n - 2];
      if n > 2 {
        assert v[..n - 2][..n - 3] == [];
      }
    }
  }

  /**
   Of a block option of any accepted length a little-endian host decodes the last three bytes as the
   standard means them if these are all, and the last two if there are more.
   */
  lemma DecodesUint(v: seq<byte>)
    requires LengthAccepted(|v|)
    ensures var b, n := DecodeBlock(v, true), Uint(if |v| <= 3 then v else Last(v, 2));
            b.number == n / 16 && (b.more <==> n / 8 % 2 == 1) && b.size == Power2(n % 8 + 4)
  {
    hide Power2, Uint;
    var w := if |v| <= 3 then v else Last(v, 2);
    UintOf(w);
    var last: nat := w[|w| - 1];
    NumberOf(v, w);
    hide DecodeNumber, Above;
    LastDigits(Above(w), last);
  }

  lemma NumberOf(v: seq<byte>, w: seq<byte>)
    requires LengthAccepted(|v|) && w == if |v| <= 3 then v else Last(v, 2)
    ensures v[|v| - 1] == w[|w| - 1]
    ensures var last: nat := w[|w| - 1]; DecodeNumber(v, true) == 16 * Above(w) + last / 16
  {
  }

  lemma LastDigits(above: nat, last: nat)
    requires last < 256
    ensures (256 * above + last) / 16 == 16 * above + last / 16
    ensures (256 * above + last) % 16 == last % 16
    ensures (256 * above + last) % 8 == last % 8
    ensures (256 * above + last) / 8 % 2 == last / 8 % 2
  {
    var n := 256 * above + last;
    assert last == 16 * (last / 16) + last % 16;
    Divides(n, 16, 16 * above + last / 16, last % 16);
    LowDigits(n);
    LowDigits(last);
  }

  lemma LowDigits(n: nat)
    ensures n % 8 == n % 16 % 8 && n / 8 % 2 == n % 16 / 8
  {
  }

  /** It encodes a block as the standard means it exactly if the number survives. */
  lemma EncodesUint(b: Block)
    requires Encodable(b)
    ensures Uint(EncodeBlock(b, true)) == BlockUint(b) <==> NumberSurvives(b, true)
  {
    hide LowBits, EncodeBlock, DecodeNumber, Power2;
    var v := EncodeBlock(b, true);
    BlockLength(b, true);
    NumberRead(b, true);
    RotatedFixpoint(b.number);
    DecodesUint(v);
    LowNibble(b);
    LowBitsRange(b);
    Divides(BlockUint(b), 16, b.number, LowBits(b));
    assert Uint(v) == 16 * (Uint(v) / 16) + Uint(v) % 16;
  }

  lemma LowNibble(b: Block)
    requires Encodable(b)
    ensures 1 <= |EncodeBlock(b, true)| <= 3 && Uint(EncodeBlock(b, true)) % 16 == LowBits(b)
  {
    hide LowBits, Uint, EncodeBlock;
    var v := EncodeBlock(b, true);
    BlockLength(b, true);
    UintOf(v);
    LastNibble(b);
    LastDigits(Above(v), v[|v| - 1]);
  }

  lemma LastNibble(b: Block)
    requires Encodable(b)
    ensures var v := EncodeBlock(b, true); v != [] && v[|v| - 1] % 16 == LowBits(b)
  {
    hide LowBits;
    LowBitsRange(b);
    var n := b.number;
    var high := if n < 16 then n else if n < 4096 then n % 16 else n / 256 % 16;
    Divides(16 * high + LowBits(b), 16, high, LowBits(b));
  }

  // ------------------------------------------------------------ the objects

  function PortOption(port: uint16): Opt { Opt(URI_PORT, [port / 256, port % 256]) }

  ghost function PathOptions(path: seq<seq<byte>>): multiset<Opt> {
    if path == [] then multiset{}
    else PathOptions(path[..|path| - 1]) + multiset{Opt(URI_PATH, path[|path| - 1])}
  }

  lemma NoPathOptions()
    ensures PathOptions([]) == multiset{}
  {
  }

  lemma PathOptionsNext(path: seq<seq<byte>>, i: nat)
    requires i < |path|
    ensures PathOptions(path[..i + 1]) == PathOptions(path[..i]) + multiset{Opt(URI_PATH, path[i])}
  {
    assert path[..i + 1][..i] == path[..i];
  }

  lemma {:induction false} PathOptionsAddable(path: seq<seq<byte>>)
    requires forall s :: s in path ==> |s| <= OPTION_MAX_LENGTH
    ensures forall o :: o in PathOptions(path) ==> o.number == URI_PATH && Addable(o)
  {
    if path != [] {
      assert path[|path| - 1] in path;
      PathOptionsAddable(path[..|path| - 1]);
    }
  }

  /** What a block header is: one port that reads as this number, the segments, and one block option; nothing else. */
  ghost predicate IsHeader(options: seq<Opt>, port: uint16, path: seq<seq<byte>>, number: uint16, value: seq<byte>) {
    && (forall o :: o in options ==> o.number == 7 || o.number == 11 || o.number == number)
    && (forall v :: multiset(options)[Opt(7, v)] == if |v| == 2 && Uint(v) == port then 1 else 0)
    && (forall v :: multiset(options)[Opt(11, v)] == multiset(path)[v])
    && (forall v :: multiset(options)[Opt(number, v)] == if v == value then 1 else 0)
  }

  /** The port is an integer of two bytes, and these are the only ones. */
  lemma PortIs(port: uint16, v: seq<byte>)
    ensures |v| == 2 && Uint(v) == port <==> v == PortOption(port).value
  {
    hide Uint;
    UintOf(PortOption(port).value);
    if |v| == 2 {
      UintOf(v);
      var high: nat, low: nat := v[0], v[1];
      Divides(Uint(v), 256, high, low);
    }
  }

  lemma {:induction false} PathCounts(path: seq<seq<byte>>, o: Opt)
    ensures PathOptions(path)[o] == if o.number == 11 then multiset(path)[o.value] else 0
  {
    if path != [] {
      var n := |path| - 1;
      PathCounts(path[..n], o);
      assert path == path[..n] + [path[n]];
      assert o == Opt(URI_PATH, path[n]) <==> o.number == 11 && o.value == path[n];
    }
  }

  /** A list with these contents is a header. */
  lemma HeaderIs(options: seq<Opt>, port: uint16, path: seq<seq<byte>>, number: uint16, value: seq<byte>)
    requires number == 23 || number == 27
    requires multiset(options) == multiset{PortOption(port)} + PathOptions(path) + multiset{Opt(number, value)}
    ensures IsHeader(options, port, path, number, value)
  {
    hide PathOptions;
    forall o | o in options ensures o.number == 7 || o.number == 11 || o.number == number {
      assert o in multiset(options);
      PathCounts(path, o);
    }
    hide PortOption, Uint;
    forall v ensures multiset(options)[Opt(7, v)] == if |v| == 2 && Uint(v) == port then 1 else 0 {
      PathCounts(path, Opt(7, v));
      PortIs(port, v);
      PortNumber(port);
    }
    forall v ensures multiset(options)[Opt(11, v)] == multiset(path)[v] {
      PathCounts(path, Opt(11, v));
      PortNumber(port);
    }
    forall v ensures multiset(options)[Opt(number, v)] == if v == value then 1 else 0 {
      PathCounts(path, Opt(number, v));
      PortNumber(port);
    }
  }

  lemma PortNumber(port: uint16)
    ensures PortOption(port).number == 7
  {
  }

  /** Every option of a list with these contents can be sent. */
  lemma HeaderAddable(options: seq<Opt>, port: uint16, path: seq<seq<byte>>, block: Opt)
    requires forall s :: s in path ==> |s| <= OPTION_MAX_LENGTH
    requires multiset(options) == multiset{PortOption(port)} + PathOptions(path) + multiset{block}
    requires Addable(block)
    ensures forall o :: o in options ==> Addable(o)
    ensures forall o :: o in multiset{PortOption(port)} + PathOptions(path) ==>
              o.number != BLOCK_1 && o.number != BLOCK_2
  {
    PathOptionsAddable(path);
    forall o | o in options ensures Addable(o) {
      assert o in multiset(options);
    }
  }

  /** The only option with this number is at position `i`. */
  ghost predicate IsOnly(options: seq<Opt>, number: uint16, i: int) {
    0 <= i < |options| && forall j :: 0 <= j < |options| ==> (options[j].number == number <==> i == j)
  }

  /** A list with these contents has exactly one option with the block's number. */
  lemma OneBlockOption(options: seq<Opt>, others: multiset<Opt>, block: Opt) returns (i: nat)
    requires multiset(options) == others + multiset{block}
    requires forall o :: o in others ==> o.number != block.number
    ensures IsOnly(options, block.number, i) && options[i] == block
  {
    assert block in multiset(options);
    i :| i < |options| && options[i] == block;
    forall j | 0 <= j < |options| ensures options[j].number == block.number <==> i == j {
      if options[j].number == block.number && i != j {
        assert options[j] in multiset(options);
        assert options[j] == block;
        TwoPlaces(options, i, j);
        assert false;
      }
    }
  }

  lemma TwoPlaces(options: seq<Opt>, i: nat, j: nat)
    requires i < |options| && j < |options| && i != j && options[i] == options[j]
    ensures multiset(options)[options[i]] >= 2
  {
    var a, b := if i < j then i else j, if i < j then j else i;
    assert options == options[..a] + [options[a]] + options[a + 1..b] + [options[b]] + options[b + 1..];
  }

  class Blockwise {
    var number: nat
    var offset: nat
    var size: uint16
    var total: nat
    var more: bool
    const littleEndian: bool
    const option: uint16

    constructor (littleEndian: bool, block1: bool)
      ensures number == 0 && offset == 0 && size == 0 && total == 0 && !more
      ensures this.littleEndian == littleEndian && option == if block1 then 27 else 23
    {
      number, offset, size, total, more := 0, 0, 0, 0, false;
      this.littleEndian := littleEndian;
      option := if block1 then BLOCK_1 else BLOCK_2;
    }

    ghost function Value(): Block reads this { Block(number, size, more) }

    /** The bytes for the number but the last, and the number's part of that. */
    method EncodeNumber() returns (pushed: seq<byte>, tmp: byte)
      requires Encodable(Value())
      ensures tmp <= 240
      ensures var low: nat := LowBits(Value());
              low < 16 && EncodeBlock(Value(), littleEndian) == pushed + [tmp + low]
    {
      hide LowBits;
      LowBitsRange(Value());
      pushed := [];
      if number < 16 {
        tmp := 16 * number;
      } else if number < 4096 {
        if littleEndian {
          pushed := pushed + [number % 256 / 16 + 16 * (number / 256)];
          tmp := 16 * (number % 16);
        } else {
          pushed := pushed + [0];
          tmp := 0;
        }
      } else {
        if littleEndian {
          pushed := pushed + [number % 256];
          pushed := pushed + [number / 256 % 256 / 16 + 16 * (number / 65536)];
          tmp := 16 * (number / 256 % 16);
        } else {
          pushed := pushed + [0];
          pushed := pushed + [16 * (number / 256 % 16)];
          tmp := 16 * (number / 65536);
        }
      }
    }

    method EncodeBlockOption(o: Opt) returns (ok: bool, encoded: Opt)
      ensures ok == (&& (o.number == 27 || o.number == 23)
                     && size % 16 == 0 && size <= 1024 && number < 1048576)
      ensures ok ==> Encodable(Value())
      ensures encoded == if ok then Opt(o.number, o.value + EncodeBlock(Value(), littleEndian)) else o
    {
      hide EncodeBlock;
      encoded := o;
      if o.number != BLOCK_1 && o.number != BLOCK_2 {
        return false, encoded;
      }
      if size % 16 != 0 || size > BLOCK_MAX_SIZE {
        return false, encoded;
      }
      if number >= MAX_BLOCKS {
        return false, encoded;
      }
      var pushed, tmp := EncodeNumber();
      var last: nat := tmp;
      LowBitsAre(Value());
      last := last + SizeOption(size) + if more then 8 else 0;
      assert o.value + (pushed + [last]) == o.value + pushed + [last];
      ok, encoded := true, Opt(o.number, o.value + pushed + [last]);
    }

    method DecodeBlockOption(o: Opt) returns (ok: bool)
      modifies this`number, this`size, this`more
      ensures ok == ((o.number == 27 || o.number == 23) && 1 <= |o.value| % 256 <= 3)
      ensures Value() == if ok then DecodeBlock(o.value, littleEndian) else old(Value())
    {
      if o.number != BLOCK_1 && o.number != BLOCK_2 {
        return false;
      }
      if !LengthAccepted(|o.value|) {
        return false;
      }
      var n := |o.value|;
      var last: nat := o.value[n - 1];
      size := DecodeSize(last % 8);
      more := last / 8 % 2 == 1;
      if n == 1 {
        number := last / 16;
      } else {
        var middle: nat := o.value[n - 2];
        if littleEndian {
          number := last / 16;
          number := number + 16 * middle;
          if n == 3 {
            var first: nat := o.value[0];
            number := number + 4096 * first;
          }
        } else {
          number := 16 * last;
          number := number + middle / 16;
        }
      }
      ok := true;
    }

    /** The size option: its length is tested as if it were a block option, so four bytes are refused. */
    method DecodeSizeOption(o: Opt) returns (ok: bool)
      modifies this`total
      ensures ok == ((o.number == 60 || o.number == 28) && 1 <= |o.value| % 256 <= 3)
      ensures total == if ok then DecodeSizeValue(o.value, littleEndian) else old(total)
    {
      if o.number != 60 && o.number != 28 {
        return false;
      }
      if !LengthAccepted(|o.value|) {
        return false;
      }
      var n := |o.value|;
      var last: nat := o.value[n - 1];
      if n == 1 {
        total := last;
      } else if littleEndian {
        var middle: nat := o.value[n - 2];
        total := 256 * middle;
        total := total + last;
        if n >= 3 {
          var top: nat := o.value[n - 3];
          total := total + 65536 * top;
        }
      } else {
        total := last;
      }
      ok := true;
    }

    /** One option for each path segment. */
    static method AddPath(path: seq<seq<byte>>, pack: Packet) returns (ok: bool)
      modifies pack`options
      ensures ok == forall s :: s in path ==> |s| <= 256
      ensures ok ==> multiset(pack.options) == old(multiset(pack.options)) + PathOptions(path)
      ensures ok && path != [] ==> Sorted(pack.options)
    {
      hide PathOptions, Sorted;
      NoPathOptions();
      assert path[..0] == [];
      var i := 0;
      while i < |path|
        invariant 0 <= i <= |path|
        invariant forall j :: 0 <= j < i ==> |path[j]| <= OPTION_MAX_LENGTH
        invariant multiset(pack.options) == old(multiset(pack.options)) + PathOptions(path[..i])
        invariant i > 0 ==> Sorted(pack.options)
      {
        var failed := pack.AddOption(URI_PATH, path[i]);
        if failed.Some? {
          assert path[i] in path;
          return false;
        }
        PathOptionsNext(path, i);
        i := i + 1;
      }
      assert path[..i] == path;
      ok := true;
    }

    /** Replaces the packet's options by port, path and block option. */
    method SetHeader(port: uint16, path: seq<seq<byte>>, pack: Packet) returns (ok: bool)
      requires option == BLOCK_1 || option == BLOCK_2
      modifies this`size, this`offset, pack`options
      ensures number == 0 && old(size) == 0 && (forall s :: s in path ==> |s| <= 256) ==>
                size == 1024
      ensures !(number == 0 && old(size) == 0) ==> size == old(size)
      ensures offset == if number == 0 && (forall s :: s in path ==> |s| <= 256) then 0 else old(offset)
      ensures ok == ((forall s :: s in path ==> |s| <= 256) 
                     && size % 16 == 0 && size <= 1024 && number < 1048576)
      ensures ok ==> Encodable(Value())
      ensures ok ==> IsHeader(pack.options, port, path, option, EncodeBlock(Value(), littleEndian))
      ensures ok ==>
                && Sorted(pack.options)
                && multiset(pack.options) == multiset{PortOption(port)} + PathOptions(path)
                                             + multiset{Opt(option, EncodeBlock(Value(), littleEndian))}
    {
      hide EncodeBlock, LowBits, PathOptions, Sorted, IsHeader;
      pack.options := [];
      var failed := pack.AddOption(URI_PORT, [port / 256, port % 256]);
      var added := AddPath(path, pack);
      if !added {
        return false;
      }
      if number == 0 {
        size := if size == 0 then BLOCK_MAX_SIZE else size;
        offset := 0;
      }
      var encoded;
      ok, encoded := EncodeBlockOption(Opt(option, []));
      if !ok {
        return false;
      }
      assert [] + EncodeBlock(Value(), littleEndian) == EncodeBlock(Value(), littleEndian);
      BlockLength(Value(), littleEndian);
      failed := pack.AddOption(encoded.number, encoded.value);
      ok := failed.None?;
      HeaderIs(pack.options, port, path, option, EncodeBlock(Value(), littleEndian));
    }

    /** Takes the block from the packet's only option of this kind. */
    method GetHeader(pack: Packet) returns (ok: bool)
      requires option == BLOCK_1 || option == BLOCK_2
      modifies this`number, this`size, this`more, pack`options
      ensures Sorted(pack.options) && multiset(pack.options) == old(multiset(pack.options))
      ensures ok <==> exists i :: IsOnly(pack.options, option, i) && 1 <= |pack.options[i].value| % 256 <= 3
      ensures !ok ==> Value() == old(Value())
      ensures forall i :: IsOnly(pack.options, option, i) && ok ==>
                Value() == DecodeBlock(pack.options[i].value, littleEndian)
    {
      var quantity, found := pack.FindOption(option);
      ghost var options := pack.options;
      if quantity == 0 {
        assert forall i :: 0 <= i < |options| ==> options[i].number != option;
        return false;
      }
      assert found[0] in found;
      if quantity > 1 {
        assert found[1] in found;
        assert options[found[0]].number == options[found[1]].number == option;
        return false;
      }
      assert IsOnly(pack.options, option, found[0]);
      assert forall i :: IsOnly(options, option, i) ==> i == found[0];
      assert options[found[0]].number == option;
      ok := DecodeBlockOption(pack.options[found[0]]);
      assert ok ==> IsOnly(pack.options, option, found[0]) && LengthAccepted(|pack.options[found[0]].value|);
    }
  }

  /** Everything up to the packet that a host of any byte order has parsed. */
  method SendBlock(sender: Blockwise, littleEndian: bool, pack: Packet, port: uint16, path: seq<seq<byte>>,
                   code: byte, id: uint16, payload: seq<byte>, token: seq<byte>) returns (arrived: Packet)
    requires pack.Valid() && sender.littleEndian == pack.littleEndian
    requires sender.option == BLOCK_1 || sender.option == BLOCK_2
    requires payload != [] && |token| <= TOKEN_MAX_LENGTH
    requires Encodable(sender.Value())
    requires forall s :: s in path ==> |s| <= OPTION_MAX_LENGTH
    modifies sender`size, sender`offset, pack, pack.token
    ensures Encodable(sender.Value())
    ensures fresh(arrived)
    ensures IsHeader(arrived.options, port, path, sender.option, EncodeBlock(sender.Value(), sender.littleEndian))
    ensures multiset(arrived.options) ==
              multiset{PortOption(port)} + PathOptions(path)
              + multiset{Opt(sender.option, EncodeBlock(sender.Value(), sender.littleEndian))}
  {
    hide EncodeBlock, PathOptions, OptionsSurvive, Sorted, IsHeader;
    var ok := sender.SetHeader(port, path, pack);
    ghost var block := Opt(sender.option, EncodeBlock(sender.Value(), sender.littleEndian));
    BlockLength(sender.Value(), sender.littleEndian);
    HeaderAddable(pack.options, port, path, block);
    var failed := pack.MakeRequest(0, code, id, payload, token);
    BuiltOptionsSurvive(0, pack.options, littleEndian);
    var error;
    arrived, error := Loopback(pack, littleEndian);
    assert arrived.options == Wire(arrived.State()).options;
    HeaderIs(arrived.options, port, path, sender.option, block.value);
  }

  /**
   A block header set on one side, sent in a request with a payload, and read on the other, the hosts
   of any two byte orders: number, size and more bit arrive exactly if the number and the size do.
   The parsed list has the block's option exactly once, whatever the sort did.
   */
  method BlockOverTheWire(sender: Blockwise, receiver: Blockwise, pack: Packet, port: uint16, path: seq<seq<byte>>,
                          code: byte, id: uint16, payload: seq<byte>, token: seq<byte>)
    returns (ok: bool, arrived: Packet)
    requires pack.Valid() && sender != receiver && sender.littleEndian == pack.littleEndian
    requires sender.option == receiver.option && (sender.option == BLOCK_1 || sender.option == BLOCK_2)
    requires payload != [] && |token| <= TOKEN_MAX_LENGTH
    requires Encodable(sender.Value())
    requires forall s :: s in path ==> |s| <= OPTION_MAX_LENGTH
    modifies sender, receiver, pack, pack.token
    ensures ok && sender.number == old(sender.number) && sender.more == old(sender.more)
    ensures Encodable(sender.Value())
    ensures IsHeader(arrived.options, port, path, sender.option, EncodeBlock(sender.Value(), sender.littleEndian))
    ensures receiver.Value() == sender.Value()
            <==> SizeSurvives(sender.size) &&
                 if sender.littleEndian == receiver.littleEndian
                 then NumberSurvives(sender.Value(), sender.littleEndian)
                 else NumberCrosses(sender.Value(), sender.littleEndian)
  {
    hide EncodeBlock, DecodeBlock, Sorted, PathOptions, NumberSurvives, NumberCrosses, SizeSurvives, IsHeader;
    arrived := SendBlock(sender, receiver.littleEndian, pack, port, path, code, id, payload, token);
    ghost var sent := sender.Value();
    ghost var block := Opt(sender.option, EncodeBlock(sent, sender.littleEndian));
    BlockLength(sent, sender.littleEndian);
    HeaderAddable(arrived.options, port, path, block);
    ghost var others := multiset{PortOption(port)} + PathOptions(path);
    ok := receiver.GetHeader(arrived);
    ghost var i := OneBlockOption(arrived.options, others, block);
    BlockBetweenHosts(sent, sender.littleEndian, receiver.littleEndian);
    HeaderIs(arrived.options, port, path, sender.option, block.value);
  }
}
