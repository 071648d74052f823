/** The bytes of the block and port options in literal numbers, for hosts of both byte orders. */
module BlockwiseFormat {
  import opened Bytes
  import opened Blockwise

  const SIZES: seq<nat> := [16, 32, 64, 128, 256, 512, 1024, 2048]

  lemma ExponentIs(szx: nat)
    requires szx < 8
    ensures DecodeSize(szx) == SIZES[szx]
  {
    SmallPowers();
  }

  /** The seven sizes of the standard are written as themselves and every other one, such as 48, as 64. */
  lemma SizeWritten(size: nat)
    ensures SizeOption(size) < 7
    ensures SIZES[SizeOption(size)] == if size in {16, 32, 64, 128, 256, 512, 1024} then size else 64
  {
  }

  /** The refusals of the encoder. */
  lemma EncodableIs(b: Block)
    ensures Encodable(b) <==> b.size % 16 == 0 && b.size <= 1024 && b.number < 1048576
  {
  }

  /** The integer in the bytes that are written, and how many there are. */
  lemma EncodedIs(b: Block, littleEndian: bool)
    requires Encodable(b)
    ensures var v, n := EncodeBlock(b, littleEndian), b.number;
            && |v| == (if n < 16 then 1 else if n < 4096 then 2 else 3)
            && Uint(v) == SizeOption(b.size) + (if b.more then 8 else 0)
                          + if n < 16 || (littleEndian && n < 4096) then 16 * n
                            else if littleEndian then 16 * (n % 256 * 4096 + n / 256)
                            else if n < 4096 then 0
                            else 4096 * (n / 256 % 16) + 16 * (n / 65536)
  {
    hide SizeOption, LowBits, EncodeBlock, Uint;
    var v, n, low := EncodeBlock(b, littleEndian), b.number, LowBits(b);
    LowBitsAre(b);
    LowBitsRange(b);
    BlockLength(b, littleEndian);
    if n < 16 {
      OneByte(b, littleEndian);
    } else if n < 4096 {
      TwoBytes(b, littleEndian);
    } else {
      FiveDigits(n);
      var t, u, w, c := n / 65536, n / 4096 % 16, n / 256 % 16, n % 256;
      Digits(t, u, w, c);
      ThreeBytes(b, littleEndian, t, u, w, c);
    }
    UintOf(v);
  }

  lemma OneByte(b: Block, littleEndian: bool)
    requires Encodable(b) && b.number < 16
    ensures EncodeBlock(b, littleEndian) == [16 * b.number + LowBits(b)]
  {
  }

  lemma TwoBytes(b: Block, littleEndian: bool)
    requires Encodable(b) && 16 <= b.number < 4096
    ensures LowBits(b) < 15
    ensures EncodeBlock(b, littleEndian) ==
              if littleEndian then [b.number / 16, 16 * (b.number % 16) + LowBits(b)] else [0, LowBits(b)]
  {
    hide LowBits;
    LowBitsRange(b);
    var n := b.number;
    Divides(n, 256, n / 256, n % 256);
  }

  /** What is read of a block option of any accepted length. */
  lemma DecodedIs(v: seq<byte>, littleEndian: bool)
    requires 1 <= |v| % 256 <= 3
    ensures var b := DecodeBlock(v, littleEndian);
            var last: nat := v[|v| - 1];
            && b.size == SIZES[last % 8] && (b.more <==> last / 8 % 2 == 1)
            && (|v| == 1 ==> b.number == last / 16)
            && (|v| > 1 ==>
                  var before: nat := v[|v| - 2];
                  b.number == if !littleEndian then 16 * last + before / 16
                              else if |v| == 3 then 4096 * v[0] + 16 * before + last / 16
                              else 16 * before + last / 16)
  {
    ExponentIs(v[|v| - 1] % 8);
    hide DecodeSize, SIZES;
  }

  /** The size option: the last three bytes on a little-endian host, the last byte on others. */
  lemma TotalIs(v: seq<byte>, littleEndian: bool)
    requires 1 <= |v| % 256 <= 3
    ensures DecodeSizeValue(v, littleEndian) ==
              Uint(if !littleEndian then v[|v| - 1..] else if |v| < 3 then v else v[|v| - 3..])
  {
    hide Uint;
    UintOf(v[|v| - 1..]);
    UintOf(if |v| < 3 then v else v[|v| - 3..]);
  }
}
