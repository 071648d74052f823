/** Base64 character by character and byte by byte, in the literal terms of section 4 of RFC 4648. */
module Base64Format {
  import opened Bytes
  import opened Base64

  const ALPHABET := "ABCDEFGHIJKLMNOPQRSTUVWXYZ" + "abcdefghijklmnopqrstuvwxyz" + "0123456789" + "+/"

  lemma AlphabetIs(n: sextet)
    ensures |ALPHABET| == 64 && EncodeChar(n) == ALPHABET[n]
  {
  }

  /** The place of a character in the alphabet; the table holds zero for every other character. */
  lemma TableIs(c: char)
    ensures if c in ALPHABET then ALPHABET[DecodeChar(c)] == c else DecodeChar(c) == 0
  {
    hide EncodeChar, DecodeChar;
    if InAlphabet(c) {
      CodesInverse(c);
      AlphabetIs(DecodeChar(c));
    } else {
      NotInAlphabet(c);
      if c in ALPHABET {
        var n :| 0 <= n < 64 && ALPHABET[n] == c;
        AlphabetIs(n);
        CharsInverse(n);
      }
    }
  }

  lemma NotInAlphabet(c: char)
    requires !InAlphabet(c)
    ensures DecodeChar(c) == 0
  {
  }

  // ------------------------------------------------------------ characters

  /** Byte `i` of the data, which zeros follow. */
  function ByteAt(d: seq<byte>, i: nat): nat { if i < |d| then d[i] else 0 }

  /** Six bits of the data, those with the numbers 6i to 6i + 5. */
  function SixBits(d: seq<byte>, i: nat): (n: nat)
    ensures n < 64
  {
    var k := 3 * (i / 4);
    match i % 4
    case 0 => ByteAt(d, k) / 4
    case 1 => ByteAt(d, k) % 4 * 16 + ByteAt(d, k + 1) / 16
    case 2 => ByteAt(d, k + 1) % 16 * 4 + ByteAt(d, k + 2) / 64
    case _ => ByteAt(d, k + 2) % 64
  }

  /** Character `i`: the one of the six bits if any of them is in the data. */
  function CharAt(d: seq<byte>, i: nat): char { if 6 * i < 8 * |d| then ALPHABET[SixBits(d, i)] else '=' }

  predicate IsEncoding(s: string, d: seq<byte>) {
    |s| == 4 * ((|d| + 2) / 3) && forall i :: 0 <= i < |s| ==> s[i] == CharAt(d, i)
  }

  lemma GroupChars(a: byte, b: byte, c: byte)
    ensures var g := EncodeGroup(a, b, c);
            && |g| == 4 && g[0] == ALPHABET[a / 4] && g[1] == ALPHABET[a % 4 * 16 + b / 16]
            && g[2] == ALPHABET[b % 16 * 4 + c / 64] && g[3] == ALPHABET[c % 64]
  {
    hide EncodeChar, ALPHABET, Triple;
    SextetsOf(a, b, c);
    AlphabetIs(a / 4);
    AlphabetIs(a % 4 * 16 + b / 16);
    AlphabetIs(b % 16 * 4 + c / 64);
    AlphabetIs(c % 64);
  }

  lemma NextSixBits(d: seq<byte>, i: nat)
    requires |d| >= 3
    ensures SixBits(d, i + 4) == SixBits(d[3..], i) && CharAt(d, i + 4) == CharAt(d[3..], i)
  {
    hide ALPHABET;
    assert (i + 4) / 4 == i / 4 + 1 && (i + 4) % 4 == i % 4;
    var k := 3 * (i / 4);
    assert ByteAt(d, k + 3) == ByteAt(d[3..], k);
    assert ByteAt(d, k + 4) == ByteAt(d[3..], k + 1);
    assert ByteAt(d, k + 5) == ByteAt(d[3..], k + 2);
  }

  lemma FirstChars(d: seq<byte>)
    requires d != []
    ensures var g := EncodeGroup(d[0], Zero(d, 1), Zero(d, 2));
            |g| == 4 && forall i :: 0 <= i < 4 && 6 * i < 8 * |d| ==> g[i] == CharAt(d, i)
  {
    hide ALPHABET, EncodeGroup;
    GroupChars(d[0], Zero(d, 1), Zero(d, 2));
  }

  lemma {:induction false} EncodeFormat(d: seq<byte>)
    requires d != []
    ensures IsEncoding(Encode(d), d)
    decreases |d|
  {
    hide Encode, EncodeGroup, CharAt;
    FirstChars(d);
    if |d| <= 3 {
      EncodeLast(d);
      LastChars(d);
    } else {
      EncodeSplits(d);
      EncodeFormat(d[3..]);
      var s := Encode(d);
      forall i | 4 <= i < |s| ensures s[i] == CharAt(d, i) {
        NextSixBits(d, i - 4);
      }
    }
  }

  lemma LastChars(d: seq<byte>)
    requires 1 <= |d| <= 3
    ensures |d| == 1 ==> CharAt(d, 2) == '=' && CharAt(d, 3) == '='
    ensures |d| == 2 ==> CharAt(d, 3) == '='
  {
  }

  /** The encoding of the data is the text of the standard and no other. */
  lemma EncodesStandard(s: string, d: seq<byte>)
    ensures s == Encode(d) <==> IsEncoding(s, d)
  {
    hide Encode, CharAt;
    if d == [] {
      NothingEncoded();
    } else {
      EncodeFormat(d);
    }
  }

  lemma NothingEncoded()
    ensures Encode([]) == []
  {
  }

  // ----------------------------------------------------------------- bytes

  /** The place of a character in the alphabet, zero if it has none. */
  function Place(s: string, i: nat): (n: sextet)
    requires i < |s|
    ensures if s[i] in ALPHABET then ALPHABET[n] == s[i] else n == 0
  {
    TableIs(s[i]);
    DecodeChar(s[i])
  }

  /** Eight bits of the characters, those with the numbers 8i to 8i + 7. */
  function EightBits(s: string, i: nat): nat
    requires |s| % 4 == 0 && i < |s| / 4 * 3
  {
    var k := 4 * (i / 3);
    match i % 3
    case 0 => Place(s, k) * 4 + Place(s, k + 1) / 16
    case 1 => Place(s, k + 1) % 16 * 16 + Place(s, k + 2) / 4
    case _ => Place(s, k + 2) % 4 * 64 + Place(s, k + 3)
  }

  /** Three bytes for four characters, one less for each of the last two that is a padding. */
  function SizeOf(s: string): nat
    requires s != [] && |s| % 4 == 0
  {
    |s| / 4 * 3 - (if s[|s| - 1] == '=' then 1 else 0) - (if s[|s| - 2] == '=' then 1 else 0)
  }

  lemma GroupOfBytes(s: string)
    requires |s| >= 4 && |s| % 4 == 0
    ensures var d := DecodeGroup(s[0], s[1], s[2], s[3]);
            |d| == 3 && forall i :: 0 <= i < 3 ==> d[i] == EightBits(s, i)
  {
    hide DecodeChar, Sextets, ALPHABET;
    BytesOf(DecodeChar(s[0]), DecodeChar(s[1]), DecodeChar(s[2]), DecodeChar(s[3]));
  }

  lemma NextEightBits(s: string, i: nat)
    requires |s| >= 4 && |s| % 4 == 0 && i < |s[4..]| / 4 * 3
    ensures i + 3 < |s| / 4 * 3 && EightBits(s, i + 3) == EightBits(s[4..], i)
  {
    hide Place, ALPHABET;
    assert (i + 3) / 3 == i / 3 + 1 && (i + 3) % 3 == i % 3;
    var k := 4 * (i / 3);
    NextPlace(s, k);
    NextPlace(s, k + 1);
    NextPlace(s, k + 2);
    NextPlace(s, k + 3);
  }

  lemma NextPlace(s: string, i: nat)
    requires i + 4 < |s|
    ensures Place(s, i + 4) == Place(s[4..], i)
  {
    hide DecodeChar, ALPHABET;
  }

  lemma {:induction false} DecodedGroups(s: string)
    requires |s| % 4 == 0
    ensures |DecodeGroups(s)| == |s| / 4 * 3
    ensures forall i :: 0 <= i < |s| / 4 * 3 ==> DecodeGroups(s)[i] == EightBits(s, i)
    decreases |s|
  {
    hide DecodeGroup, EightBits;
    DecodeGroupsLength(s);
    if s != [] {
      GroupOfBytes(s);
      DecodedGroups(s[4..]);
      forall i | 3 <= i < |s| / 4 * 3 ensures DecodeGroups(s)[i] == EightBits(s, i) {
        NextEightBits(s, i - 3);
      }
    }
  }

  /** What any characters decode to, those outside the alphabet included. */
  lemma DecodesStandard(s: string)
    requires s != [] && |s| % 4 == 0
    ensures |Decode(s)| == SizeOf(s)
    ensures forall i :: 0 <= i < |Decode(s)| ==> i < |s| / 4 * 3 && Decode(s)[i] == EightBits(s, i)
  {
    hide EightBits, DecodeGroups;
    DecodedGroups(s);
  }
}
