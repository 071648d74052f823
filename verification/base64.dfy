/** Base64 (section 4 of RFC 4648): groups of three bytes as four characters, and back. */
module Base64 {
  import opened Bytes

  type sextet = n: int | 0 <= n < 64

  const PAD := '='

  // ---------------------------------------------------------- the alphabet

  /** The encoding table. */
  function EncodeChar(n: sextet): char {
    if n < 26 then ('A' as int + n) as char
    else if n < 52 then ('a' as int + (n - 26)) as char
    else if n < 62 then ('0' as int + (n - 52)) as char
    else if n == 62 then '+'
    else '/'
  }

  predicate InAlphabet(c: char) {
    'A' <= c <= 'Z' || 'a' <= c <= 'z' || '0' <= c <= '9' || c == '+' || c == '/'
  }

  /** The decoding table, which holds zero for every character outside the alphabet. */
  function DecodeChar(c: char): sextet {
    if 'A' <= c <= 'Z' then c as int - 'A' as int
    else if 'a' <= c <= 'z' then c as int - 'a' as int + 26
    else if '0' <= c <= '9' then c as int - '0' as int + 52
    else if c == '+' then 62
    else if c == '/' then 63
    else 0
  }

  lemma CharsInverse(n: sextet)
    ensures InAlphabet(EncodeChar(n)) && EncodeChar(n) != PAD && DecodeChar(EncodeChar(n)) == n
  {
  }

  lemma CodesInverse(c: char)
    requires InAlphabet(c)
    ensures EncodeChar(DecodeChar(c)) == c
  {
  }

  // ------------------------------------------------------------ one group

  function Triple(a: byte, b: byte, c: byte): nat {
    var a: nat, b: nat, c: nat := a, b, c;
    65536 * a + 256 * b + c
  }

  function EncodeGroup(a: byte, b: byte, c: byte): string {
    var t := Triple(a, b, c);
    [EncodeChar(t / 262144 % 64), EncodeChar(t / 4096 % 64), EncodeChar(t / 64 % 64), EncodeChar(t % 64)]
  }

  function Sextets(w: sextet, x: sextet, y: sextet, z: sextet): nat {
    var w: nat, x: nat, y: nat, z: nat := w, x, y, z;
    262144 * w + 4096 * x + 64 * y + z
  }

  function DecodeGroup(p: char, q: char, r: char, s: char): seq<byte> {
    var t := Sextets(DecodeChar(p), DecodeChar(q), DecodeChar(r), DecodeChar(s));
    [t / 65536 % 256, t / 256 % 256, t % 256]
  }

  lemma DivMod(n: nat, d: nat, q: nat, r: nat)
    requires d in [4, 16, 64, 256, 4096, 65536, 262144] && n == d * q + r && r < d
    ensures n / d == q && n % d == r
  {
    if d == 4 { assert n == 4 * q + r; }
    else if d == 16 { assert n == 16 * q + r; }
    else if d == 64 { assert n == 64 * q + r; }
    else if d == 256 { assert n == 256 * q + r; }
    else if d == 4096 { assert n == 4096 * q + r; }
    else if d == 65536 { assert n == 65536 * q + r; }
    else { assert n == 262144 * q + r; }
  }

  /** The four sextets of three bytes. */
  lemma SextetsOf(a: byte, b: byte, c: byte)
    ensures var t := Triple(a, b, c);
            && t / 262144 % 64 == a / 4 && t / 4096 % 64 == 16 * (a % 4) + b / 16
            && t / 64 % 64 == 4 * (b % 16) + c / 64 && t % 64 == c % 64
  {
    var t := Triple(a, b, c);
    var a1, a0, b1, b0, c1, c0 := a / 4, a % 4, b / 16, b % 16, c / 64, c % 64;
    assert a == 4 * a1 + a0 && b == 16 * b1 + b0 && c == 64 * c1 + c0;
    var x, y := 16 * a0 + b1, 4 * b0 + c1;
    assert t == 262144 * a1 + 4096 * x + 64 * y + c0;
    DivMod(t, 262144, a1, 4096 * x + 64 * y + c0);
    DivMod(t, 4096, 64 * a1 + x, 64 * y + c0);
    DivMod(64 * a1 + x, 64, a1, x);
    DivMod(t, 64, 4096 * a1 + 64 * x + y, c0);
    DivMod(4096 * a1 + 64 * x + y, 64, 64 * a1 + x, y);
  }

  /** The three bytes of four sextets. */
  lemma BytesOf(w: sextet, x: sextet, y: sextet, z: sextet)
    ensures var t := Sextets(w, x, y, z);
            && t / 65536 % 256 == 4 * w + x / 16
            && t / 256 % 256 == 16 * (x % 16) + y / 4
            && t % 256 == 64 * (y % 4) + z
  {
    var t := Sextets(w, x, y, z);
    var w: nat, z: nat := w, z;
    var x1: nat, x0: nat, y1: nat, y0: nat := x / 16, x % 16, y / 4, y % 4;
    assert x == 16 * x1 + x0 && y == 4 * y1 + y0;
    var a, b, c := 4 * w + x1, 16 * x0 + y1, 64 * y0 + z;
    assert t == 65536 * a + 256 * b + c;
    DivMod(t, 65536, a, 256 * b + c);
    DivMod(a, 256, 0, a);
    DivMod(t, 256, 256 * a + b, c);
    DivMod(256 * a + b, 256, a, b);
  }

  /** Three bytes come back from their four characters. */
  lemma GroupInverse(a: byte, b: byte, c: byte)
    ensures var g := EncodeGroup(a, b, c);
            && |g| == 4 && (forall i :: 0 <= i < 4 ==> InAlphabet(g[i]) && g[i] != PAD)
            && DecodeGroup(g[0], g[1], g[2], g[3]) == [a, b, c]
            && (c == 0 ==> DecodeChar(g[2]) % 4 == 0 && DecodeGroup(g[0], g[1], g[2], PAD) == [a, b, c])
            && (b == 0 && c == 0 ==> DecodeChar(g[1]) % 16 == 0 && DecodeGroup(g[0], g[1], PAD, PAD) == [a, b, c])
  {
    hide EncodeChar, DecodeChar, InAlphabet, Sextets, Triple;
    SextetsOf(a, b, c);
    var w: sextet, x: sextet, y: sextet, z: sextet := a / 4, 16 * (a % 4) + b / 16, 4 * (b % 16) + c / 64, c % 64;
    CharsInverse(w);
    CharsInverse(x);
    CharsInverse(y);
    CharsInverse(z);
    PadIsZero();
    BytesOf(w, x, y, z);
    RegroupBytes(a, b, c);
  }

  lemma RegroupBytes(a: byte, b: byte, c: byte)
    ensures var w, x, y, z := a / 4, 16 * (a % 4) + b / 16, 4 * (b % 16) + c / 64, c % 64;
            && 4 * w + x / 16 == a && 16 * (x % 16) + y / 4 == b && 64 * (y % 4) + z == c
            && (c == 0 ==> z == 0 && y % 4 == 0) && (b == 0 && c == 0 ==> y == 0 && z == 0 && x % 16 == 0)
  {
    DivMod(16 * (a % 4) + b / 16, 16, a % 4, b / 16);
    DivMod(4 * (b % 16) + c / 64, 4, b % 16, c / 64);
  }

  lemma PadIsZero()
    ensures DecodeChar(PAD) == 0 && !InAlphabet(PAD)
  {
  }

  /** Four sextets come back from their three bytes. */
  lemma CharsOfGroup(p: char, q: char, r: char, s: char)
    ensures var d := DecodeGroup(p, q, r, s);
            EncodeGroup(d[0], d[1], d[2]) ==
              [EncodeChar(DecodeChar(p)), EncodeChar(DecodeChar(q)),
               EncodeChar(DecodeChar(r)), EncodeChar(DecodeChar(s))]
  {
    hide EncodeChar, DecodeChar;
    var w, x, y, z := DecodeChar(p), DecodeChar(q), DecodeChar(r), DecodeChar(s);
    BytesOf(w, x, y, z);
    var d := DecodeGroup(p, q, r, s);
    SextetsOf(d[0], d[1], d[2]);
    FourSextets(w, x, y, z, d[0], d[1], d[2]);
  }

  lemma FourSextets(w: sextet, x: sextet, y: sextet, z: sextet, a: nat, b: nat, c: nat)
    requires a == 4 * w + x / 16 && b == 16 * (x % 16) + y / 4 && c == 64 * (y % 4) + z
    ensures a / 4 == w && 16 * (a % 4) + b / 16 == x && 4 * (b % 16) + c / 64 == y && c % 64 == z
  {
    var w: nat, z: nat := w, z;
    DivMod(a, 4, w, x / 16);
    DivMod(b, 16, x % 16, y / 4);
    DivMod(c, 64, y % 4, z);
  }

  // ------------------------------------------------------------ whole data

  function Zero(d: seq<byte>, i: nat): byte { if i < |d| then d[i] else 0 }

  /** The characters of the data, as if zeros followed it. */
  function Groups(d: seq<byte>): string
    decreases |d|
  {
    if d == [] then []
    else EncodeGroup(d[0], Zero(d, 1), Zero(d, 2)) + Groups(if |d| <= 3 then [] else d[3..])
  }

  /** How many of the last characters the padding replaces. */
  function PadCount(n: nat): nat { [0, 2, 1][n % 3] }

  function Pads(n: nat): (r: string)
    ensures |r| == n
  {
    seq(n, _ => PAD)
  }

  function EncodedSize(n: nat): nat { 4 * ((n + 2) / 3) }

  lemma {:induction false} GroupsLength(d: seq<byte>)
    ensures |Groups(d)| == EncodedSize(|d|)
    ensures PadCount(|d|) <= |Groups(d)|
    decreases |d|
  {
    hide EncodeGroup;
    if d != [] {
      GroupSize(d[0], Zero(d, 1), Zero(d, 2));
      GroupsLength(if |d| <= 3 then [] else d[3..]);
    }
  }

  lemma GroupSize(a: byte, b: byte, c: byte)
    ensures |EncodeGroup(a, b, c)| == 4
  {
  }

  function Encode(d: seq<byte>): string {
    GroupsLength(d);
    var g := Groups(d);
    g[..|g| - PadCount(|d|)] + Pads(PadCount(|d|))
  }

  /** The bytes of the characters, the padding counting as zero sextets. */
  function DecodeGroups(s: string): seq<byte>
    requires |s| % 4 == 0
    decreases |s|
  {
    if s == [] then [] else DecodeGroup(s[0], s[1], s[2], s[3]) + DecodeGroups(s[4..])
  }

  function DecodedSize(s: string): nat
    requires s != [] && |s| % 4 == 0
  {
    var n := |s|;
    n / 4 * 3 - (if s[n - 1] == PAD then 1 else 0) - (if s[n - 2] == PAD then 1 else 0)
  }

  lemma {:induction false} DecodeGroupsLength(s: string)
    requires |s| % 4 == 0
    ensures |DecodeGroups(s)| == |s| / 4 * 3
    decreases |s|
  {
    hide DecodeGroup;
    if s != [] {
      DecodeGroupsLength(s[4..]);
      ThreeBytes(s[0], s[1], s[2], s[3]);
    }
  }

  lemma ThreeBytes(p: char, q: char, r: char, s: char)
    ensures |DecodeGroup(p, q, r, s)| == 3
  {
  }

  function Decode(s: string): seq<byte>
    requires s != [] && |s| % 4 == 0
  {
    DecodeGroupsLength(s);
    DecodeGroups(s)[..DecodedSize(s)]
  }

  /** Encoding goes group by group. */
  lemma EncodeSplits(d: seq<byte>)
    requires |d| > 3
    ensures Encode(d) == EncodeGroup(d[0], d[1], d[2]) + Encode(d[3..])
  {
    hide EncodeGroup, Groups;
    GroupsLength(d);
    GroupsLength(d[3..]);
    GroupsOfMany(d);
    GroupSize(d[0], d[1], d[2]);
    assert PadCount(|d|) == PadCount(|d[3..]|);
  }

  lemma GroupsOfMany(d: seq<byte>)
    requires |d| > 3
    ensures Groups(d) == EncodeGroup(d[0], d[1], d[2]) + Groups(d[3..])
  {
  }

  /** The last group with its padding. */
  lemma EncodeLast(d: seq<byte>)
    requires 1 <= |d| <= 3
    ensures var g := EncodeGroup(d[0], Zero(d, 1), Zero(d, 2));
            |g| == 4 &&
            Encode(d) == if |d| == 3 then g else if |d| == 2 then [g[0], g[1], g[2], PAD] else [g[0], g[1], PAD, PAD]
  {
    hide EncodeGroup;
    GroupSize(d[0], Zero(d, 1), Zero(d, 2));
    GroupsLength(d);
    assert Groups([]) == [];
    assert Groups(d) == EncodeGroup(d[0], Zero(d, 1), Zero(d, 2)) + [];
  }

  lemma DecodeSplits(s: string)
    requires |s| > 4 && |s| % 4 == 0
    ensures Decode(s) == DecodeGroup(s[0], s[1], s[2], s[3]) + Decode(s[4..])
    ensures Decode(s[4..]) != []
  {
    hide DecodeGroup;
    ThreeBytes(s[0], s[1], s[2], s[3]);
    DecodeGroupsLength(s);
    DecodeGroupsLength(s[4..]);
  }

  lemma DecodeLast(s: string)
    requires |s| == 4
    ensures var d := DecodeGroup(s[0], s[1], s[2], s[3]);
            |d| == 3 && Decode(s) == d[..3 - (if s[3] == PAD then 1 else 0) - (if s[2] == PAD then 1 else 0)]
  {
    hide DecodeGroup;
    ThreeBytes(s[0], s[1], s[2], s[3]);
    assert DecodeGroups(s[4..]) == [];
    assert DecodeGroups(s) == DecodeGroup(s[0], s[1], s[2], s[3]);
  }

  // ---------------------------------------------------------- round trips

  /** Padded as the encoder pads, with zero spare bits, and nothing outside the alphabet. */
  predicate Canonical(s: string)
    decreases |s|
  {
    && |s| >= 4 && |s| % 4 == 0
    && InAlphabet(s[0]) && InAlphabet(s[1])
    && if |s| == 4 then
         || (InAlphabet(s[2]) && InAlphabet(s[3]))
         || (InAlphabet(s[2]) && s[3] == PAD && DecodeChar(s[2]) % 4 == 0)
         || (s[2] == PAD && s[3] == PAD && DecodeChar(s[1]) % 16 == 0)
       else InAlphabet(s[2]) && InAlphabet(s[3]) && Canonical(s[4..])
  }

  /** Decoding what was encoded gives the data back. */
  lemma {:induction false} DecodeInvertsEncode(d: seq<byte>)
    requires d != []
    ensures Encode(d) != [] && |Encode(d)| == EncodedSize(|d|) && |Encode(d)| % 4 == 0
    ensures Decode(Encode(d)) == d
    ensures Canonical(Encode(d))
    decreases |d|
  {
    hide EncodeGroup, DecodeGroup, Encode, Decode, InAlphabet, DecodeChar;
    GroupInverse(d[0], Zero(d, 1), Zero(d, 2));
    PadIsZero();
    if |d| <= 3 {
      EncodeLast(d);
      DecodeLast(Encode(d));
      assert d == [d[0], Zero(d, 1), Zero(d, 2)][..|d|];
    } else {
      var g := EncodeGroup(d[0], d[1], d[2]);
      EncodeSplits(d);
      DecodeInvertsEncode(d[3..]);
      assert Encode(d)[4..] == Encode(d[3..]);
      DecodeSplits(Encode(d));
      assert d == [d[0], d[1], d[2]] + d[3..];
    }
  }

  lemma {:induction false} EncodeInvertsDecode(s: string)
    requires Canonical(s)
    ensures Encode(Decode(s)) == s
    decreases |s|
  {
    hide EncodeGroup, DecodeGroup, Encode, Decode, InAlphabet, DecodeChar, EncodeChar;
    CanonicalGroup(s);
    var d := DecodeGroup(s[0], s[1], s[2], s[3]);
    ThreeBytes(s[0], s[1], s[2], s[3]);
    GroupSize(d[0], d[1], d[2]);
    PadIsZero();
    if |s| == 4 {
      DecodeLast(s);
      EncodeLast(Decode(s));
      assert Decode(s)[0] == d[0];
    } else {
      DecodeSplits(s);
      EncodeInvertsDecode(s[4..]);
      assert Decode(s)[3..] == Decode(s[4..]);
      EncodeSplits(Decode(s));
      assert EncodeGroup(d[0], d[1], d[2]) == [s[0], s[1], s[2], s[3]];
      assert s == [s[0], s[1], s[2], s[3]] + s[4..];
    }
  }

  /** The bytes of a canonical group give its characters back, and those behind the padding are zero. */
  lemma CanonicalGroup(s: string)
    requires Canonical(s)
    ensures var d := DecodeGroup(s[0], s[1], s[2], s[3]);
            var g := EncodeGroup(d[0], d[1], d[2]);
            && g[0] == s[0] && g[1] == s[1] && (s[2] != PAD ==> g[2] == s[2]) && (s[3] != PAD ==> g[3] == s[3])
            && (s[3] == PAD ==> d[2] == 0) && (s[2] == PAD ==> d[1] == 0)
  {
    hide EncodeGroup, EncodeChar;
    CharsOfGroup(s[0], s[1], s[2], s[3]);
    PadIsZero();
    CodesInverse(s[0]);
    CodesInverse(s[1]);
    if s[2] != PAD { CodesInverse(s[2]); }
    if s[3] != PAD { CodesInverse(s[3]); }
    BytesOf(DecodeChar(s[0]), DecodeChar(s[1]), DecodeChar(s[2]), DecodeChar(s[3]));
  }

  /** Encoding what was decoded gives the characters back exactly if they are canonical. */
  lemma EncodeAfterDecode(s: string)
    requires s != [] && |s| % 4 == 0
    ensures Encode(Decode(s)) == s <==> Canonical(s)
  {
    hide Encode, Decode, Canonical;
    DecodedNotEmpty(s);
    if Encode(Decode(s)) == s {
      DecodeInvertsEncode(Decode(s));
    }
    if Canonical(s) {
      EncodeInvertsDecode(s);
    }
  }

  lemma DecodedNotEmpty(s: string)
    requires s != [] && |s| % 4 == 0
    ensures Decode(s) != []
  {
    DecodeGroupsLength(s);
  }

  // ------------------------------------------------------------ the object

  /** What is encoded in two goes, the first of whole groups. */
  lemma {:induction false} GroupsAppend(a: seq<byte>, b: seq<byte>)
    requires |a| % 3 == 0
    ensures Groups(a + b) == Groups(a) + Groups(b)
    decreases |a|
  {
    hide EncodeGroup;
    if a == [] {
      assert a + b == b;
    } else {
      var rest := a[3..];
      GroupsAppend(rest, b);
      assert (a + b)[3..] == rest + b;
      FirstGroup(a);
      FirstGroup(a + b);
    }
  }

  lemma FirstGroup(d: seq<byte>)
    requires |d| >= 3
    ensures Groups(d) == EncodeGroup(d[0], d[1], d[2]) + Groups(d[3..])
  {
    if |d| == 3 {
      assert d[3..] == [];
    }
  }

  lemma OneGroup(d: seq<byte>)
    requires 1 <= |d| <= 3
    ensures Groups(d) == EncodeGroup(d[0], Zero(d, 1), Zero(d, 2))
  {
    assert EncodeGroup(d[0], Zero(d, 1), Zero(d, 2)) + [] == EncodeGroup(d[0], Zero(d, 1), Zero(d, 2));
  }

  lemma {:induction false} DecodeGroupsAppend(a: string, b: string)
    requires |a| % 4 == 0 && |b| % 4 == 0
    ensures DecodeGroups(a + b) == DecodeGroups(a) + DecodeGroups(b)
    decreases |a|
  {
    hide DecodeGroup;
    if a == [] {
      assert a + b == b;
    } else {
      DecodeGroupsAppend(a[4..], b);
      assert (a + b)[4..] == a[4..] + b;
    }
  }

  /** The characters of a longer start of the data. */
  lemma PrefixGroups(data: seq<byte>, from: nat, to: nat)
    requires from % 3 == 0 && from < |data| && to == if from + 3 <= |data| then from + 3 else |data|
    ensures Groups(data[..to]) ==
              Groups(data[..from]) + EncodeGroup(data[from], Zero(data, from + 1), Zero(data, from + 2))
  {
    hide EncodeGroup, Groups;
    assert data[..to] == data[..from] + data[from..to];
    GroupsAppend(data[..from], data[from..to]);
    OneGroup(data[from..to]);
  }

  /** The bytes of a longer start of the characters. */
  lemma PrefixBytes(s: string, from: nat)
    requires from % 4 == 0 && from + 4 <= |s|
    ensures DecodeGroups(s[..from + 4]) ==
              DecodeGroups(s[..from]) + DecodeGroup(s[from], s[from + 1], s[from + 2], s[from + 3])
  {
    hide DecodeGroup;
    assert s[..from + 4] == s[..from] + s[from..from + 4];
    DecodeGroupsAppend(s[..from], s[from..from + 4]);
    assert s[from..from + 4][4..] == [];
    assert DecodeGroups([]) == [];
  }
}

/** The object that holds the results of both directions. */
module Base64Object {
  import opened Bytes
  import opened Base64

  class Base64Encoder {
    var encodedSize: nat
    var decodedSize: nat
    var encodedData: array<char>
    var decodedData: array<byte>
    const decodingTable: array<sextet>

    ghost predicate Valid()
      reads this, decodingTable
    {
      && decodingTable.Length == 256
      && forall i :: 0 <= i < 256 ==> decodingTable[i] == DecodeChar(i as char)
    }

    constructor ()
      ensures Valid() && fresh(decodingTable)
    {
      encodedSize, decodedSize := 0, 0;
      encodedData := new char[0];
      decodedData := new byte[0];
      decodingTable := new sextet[256](_ => 0);
      new;
      DecodingTableInit();
    }

    /** Sets the entries of the alphabet in the zeroed table. */
    method DecodingTableInit()
      requires decodingTable.Length == 256 && forall i :: 0 <= i < 256 ==> decodingTable[i] == 0
      modifies decodingTable
      ensures Valid()
    {
      var i := 0;
      while i < 64
        invariant 0 <= i <= 64
        invariant forall k :: 0 <= k < 256 ==>
                    decodingTable[k] ==
                      if InAlphabet(k as char) && DecodeChar(k as char) < i then DecodeChar(k as char) else 0
      {
        CharsInverse(i);
        forall c: char | InAlphabet(c) && DecodeChar(c) == i ensures c == EncodeChar(i) {
          CodesInverse(c);
        }
        decodingTable[EncodeChar(i) as int] := i;
        i := i + 1;
      }
    }

    method Encode(data: seq<byte>)
      requires Valid()
      modifies this`encodedSize, this`encodedData
      ensures Valid() && fresh(encodedData)
      ensures encodedSize == EncodedSize(|data|) && encodedData.Length == encodedSize + 1
      ensures encodedData[..encodedSize] == Base64.Encode(data) && encodedData[encodedSize] == '\0'
    {
      hide Groups, PadCount, Pads, Base64.Encode;
      var length := |data|;
      encodedSize := 4 * ((length + 2) / 3);
      assert encodedSize == EncodedSize(length) && EncodedSize(0) == 0;
      hide EncodedSize;
      encodedData := new char[encodedSize + 1];
      EncodeIs(data);
      NoGroups();
      assert data[..0] == [];
      var i, j := 0, 0;
      while i < length
        invariant 0 <= i <= length && (i % 3 == 0 || i == length)
        invariant encodedSize == EncodedSize(length)
        invariant j == EncodedSize(i) <= encodedSize && encodedData.Length == encodedSize + 1
        invariant encodedData[..j] == Groups(data[..i]) && fresh(encodedData)
      {
        i := EncodeNext(data, i, j);
        j := j + 4;
      }
      assert data[..i] == data;
      PadAndEnd(Groups(data), PadCount(length));
    }

    /** One turn of the loop: up to three bytes, and their four characters. */
    method EncodeNext(data: seq<byte>, from: nat, j: nat) returns (i: nat)
      requires from < |data| && from % 3 == 0 && j == EncodedSize(from)
      requires encodedData.Length == EncodedSize(|data|) + 1
      requires j <= encodedData.Length && encodedData[..j] == Groups(data[..from])
      modifies encodedData
      ensures from < i <= |data| && (i % 3 == 0 || i == |data|)
      ensures EncodedSize(i) == j + 4 <= EncodedSize(|data|)
      ensures encodedData[..j + 4] == Groups(data[..i])
    {
      hide EncodeGroup, Groups, EncodedSize;
      SizeStep(from, |data|);
      var a := data[from];
      i := from + 1;
      var b: byte := 0;
      if i < |data| {
        b := data[i];
        i := i + 1;
      }
      var c: byte := 0;
      if i < |data| {
        c := data[i];
        i := i + 1;
      }
      var group := EncodeGroup(a, b, c);
      GroupSize(a, b, c);
      PrefixGroups(data, from, i);
      WriteGroup(j, group);
    }

    method WriteGroup(j: nat, group: string)
      requires |group| == 4 && j + 4 <= encodedData.Length
      modifies encodedData
      ensures encodedData[..j + 4] == old(encodedData[..j]) + group
    {
      encodedData[j] := group[0];
      encodedData[j + 1] := group[1];
      encodedData[j + 2] := group[2];
      encodedData[j + 3] := group[3];
    }

    /** Overwrites the last characters with padding and sets the final zero. */
    method PadAndEnd(groups: string, count: nat)
      requires encodedData.Length == encodedSize + 1 && encodedData[..encodedSize] == groups
      requires count <= encodedSize
      modifies encodedData
      ensures encodedData[..encodedSize] == groups[..encodedSize - count] + Pads(count)
      ensures encodedData[encodedSize] == '\0'
    {
      var i := 0;
      while i < count
        invariant 0 <= i <= count
        invariant encodedData[..encodedSize - i] == groups[..encodedSize - i]
        invariant encodedData[encodedSize - i..encodedSize] == Pads(i)
      {
        encodedData[encodedSize - 1 - i] := PAD;
        i := i + 1;
      }
      encodedData[encodedSize] := '\0';
    }

    /** The characters must be of seven bits, since they index a table, and there must be some. */
    method Decode(data: string) returns (ok: bool)
      requires Valid() && data != [] && forall c :: c in data ==> c < 256 as char
      modifies this`decodedSize, this`decodedData
      ensures Valid()
      ensures ok == (|data| % 4 == 0)
      ensures !ok ==> decodedData == old(decodedData) && decodedSize == old(decodedSize)
      ensures ok ==> decodedSize == DecodedSize(data) && decodedData[..] == Base64.Decode(data)
    {
      hide DecodeGroup, DecodeGroups, DecodeChar;
      var length := |data|;
      if length % 4 != 0 {
        return false;
      }
      DecodeGroupsLength(data);
      decodedSize := length / 4 * 3;
      if data[length - 1] == PAD { decodedSize := decodedSize - 1; }
      if data[length - 2] == PAD { decodedSize := decodedSize - 1; }
      assert decodedSize == DecodedSize(data);
      hide DecodedSize;
      decodedData := new byte[decodedSize];
      EmptyGroups();
      assert data[..0] == [];
      var i, j := 0, 0;
      while i < length
        invariant 0 <= i <= length && i % 4 == 0 && length % 4 == 0
        invariant decodedSize == DecodedSize(data) && decodedData.Length == decodedSize && fresh(decodedData)
        invariant j == if i / 4 * 3 <= decodedSize then i / 4 * 3 else decodedSize
        invariant |DecodeGroups(data[..i])| == i / 4 * 3
        invariant decodedData[..j] == DecodeGroups(data[..i])[..j]
      {
        FourOn(i);
        j := DecodeNext(data, i, j);
        i := i + 4;
      }
      assert data[..i] == data;
      ok := true;
    }

    /** One turn of the decoding loop. */
    method DecodeNext(data: string, i: nat, j: nat) returns (next: nat)
      requires Valid() && i + 4 <= |data| && i % 4 == 0 && forall c :: c in data ==> c < 256 as char
      requires |DecodeGroups(data[..i])| == i / 4 * 3 && decodedSize == decodedData.Length
      requires j == if i / 4 * 3 <= decodedSize then i / 4 * 3 else decodedSize
      requires decodedData[..j] == DecodeGroups(data[..i])[..j]
      modifies decodedData
      ensures next == if i / 4 * 3 + 3 <= decodedSize then i / 4 * 3 + 3 else decodedSize
      ensures |DecodeGroups(data[..i + 4])| == i / 4 * 3 + 3
      ensures decodedData[..next] == DecodeGroups(data[..i + 4])[..next]
    {
      hide DecodeGroup, DecodeGroups, DecodeChar, Sextets;
      var a, b, c, d := Sextet(data, i), Sextet(data, i + 1), Sextet(data, i + 2), Sextet(data, i + 3);
      var triple := Sextets(a, b, c, d);
      ghost var group := DecodeGroup(data[i], data[i + 1], data[i + 2], data[i + 3]);
      ThreeBytes(data[i], data[i + 1], data[i + 2], data[i + 3]);
      GroupBytes(data, i);
      PrefixBytes(data, i);
      ghost var start, whole := DecodeGroups(data[..i]), DecodeGroups(data[..i + 4]);
      ByteAt(start, group, whole, j);
      next := Store(j, triple / 65536 % 256, whole);
      next := Store(next, triple / 256 % 256, whole);
      next := Store(next, triple % 256, whole);
    }

    /** Appends a byte unless the data are complete. */
    method Store(j: nat, value: byte, ghost whole: seq<byte>) returns (next: nat)
      requires j <= decodedSize == decodedData.Length
      requires j <= |whole| && decodedData[..j] == whole[..j]
      requires j < decodedSize ==> j < |whole| && value == whole[j]
      modifies decodedData
      ensures next == if j < decodedSize then j + 1 else j
      ensures next <= |whole| && decodedData[..next] == whole[..next]
    {
      next := j;
      if next < decodedSize {
        decodedData[next] := value;
        next := next + 1;
      }
    }

    /** The table entry of a character, or zero for padding. */
    function Sextet(data: string, i: nat): (n: sextet)
      requires Valid() && i < |data| && forall c :: c in data ==> c < 256 as char
      reads this, decodingTable
      ensures n == DecodeChar(data[i])
    {
      assert data[i] in data;
      PadIsZero();
      if data[i] == PAD then 0 else decodingTable[data[i] as int]
    }
  }

  lemma SizeStep(from: nat, length: nat)
    requires from % 3 == 0 && from < length
    ensures var to := if from + 3 <= length then from + 3 else length;
            EncodedSize(to) == EncodedSize(from) + 4 <= EncodedSize(length)
  {
    var m := from / 3;
    var to := if from + 3 <= length then from + 3 else length;
    assert from == 3 * m;
    Thirds(from + 2, m, 2);
    Thirds(to + 2, m + 1, to - from - 1);
  }

  lemma Thirds(n: nat, q: nat, r: nat)
    requires n == 3 * q + r && r < 3
    ensures n / 3 == q
  {
  }

  lemma ByteAt(start: seq<byte>, group: seq<byte>, whole: seq<byte>, j: nat)
    requires whole == start + group && |group| == 3
    ensures |whole| == |start| + 3
    ensures whole[|start|] == group[0] && whole[|start| + 1] == group[1] && whole[|start| + 2] == group[2]
    ensures j <= |start| ==> whole[..j] == start[..j]
  {
  }

  lemma EncodeIs(data: seq<byte>)
    ensures |Groups(data)| == EncodedSize(|data|) >= PadCount(|data|)
    ensures Base64.Encode(data) == Groups(data)[..EncodedSize(|data|) - PadCount(|data|)] + Pads(PadCount(|data|))
  {
    GroupsLength(data);
  }

  lemma FourOn(i: nat)
    requires i % 4 == 0
    ensures (i + 4) % 4 == 0 && (i + 4) / 4 * 3 == i / 4 * 3 + 3
  {
  }

  lemma NoGroups()
    ensures Groups([]) == []
  {
  }

  lemma EmptyGroups()
    ensures DecodeGroups([]) == []
  {
  }

  lemma GroupBytes(data: string, i: nat)
    requires i + 3 < |data|
    ensures var t := Sextets(DecodeChar(data[i]), DecodeChar(data[i + 1]),
                             DecodeChar(data[i + 2]), DecodeChar(data[i + 3]));
            DecodeGroup(data[i], data[i + 1], data[i + 2], data[i + 3]) == [t / 65536 % 256, t / 256 % 256, t % 256]
  {
  }
}
