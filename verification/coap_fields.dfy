/** The option fields against section 3.1 of RFC 7252: what a nibble and its extension bytes stand for. */
module CoapFields {
  import opened Bytes
  import opened CoapWire
  import opened CoapRoundTrip

  function Int(b: byte): int { b }

  /** The standard's reading of a delta or a length. */
  predicate Stands(nibble: nat, extension: seq<byte>, v: nat) {
    || (nibble < 13 && extension == [] && v == nibble)
    || (nibble == 13 && |extension| == 1 && v == Int(extension[0]) + 13)
    || (nibble == 14 && |extension| == 2 && v == 256 * Int(extension[0]) + Int(extension[1]) + 269)
  }

  /** The writer's nibble and extension are the standard's, and the only ones, for every value it has any for. */
  lemma WritesStandard(v: nat, nibble: nat, extension: seq<byte>)
    ensures Stands(nibble, extension, v) <==> v <= 0xFFFF + 269 && nibble == Nibble(v) && extension == Extension(v)
  {
    if v > 268 && Stands(nibble, extension, v) {
      TwoBytes(v - 269, extension[0], extension[1]);
      assert extension == [extension[0], extension[1]];
    }
    if v <= 268 && nibble == 13 && |extension| == 1 {
      assert extension == [extension[0]];
    }
  }

  lemma TwoBytes(v: nat, high: byte, low: byte)
    requires v == 256 * Int(high) + Int(low)
    ensures v / 256 == high && v % 256 == low
  {
  }

  /**
   Fifteen is no delta and no length. Any other field the reader finds, and it reads the standard's
   value exactly if there is no two-byte extension, or the extension's bytes are in the host's order
   and the value fits 16 bits.
   */
  lemma ReadsStandard(nibble: nat, s: seq<byte>, k: nat, littleEndian: bool)
    requires nibble < 16 && k + 1 + (if nibble == 14 then 2 else if nibble == 13 then 1 else 0) <= |s|
    ensures ReadField(nibble, s, k, littleEndian).Some? <==> nibble != 15
    ensures nibble != 15 ==>
              var f := ReadField(nibble, s, k, littleEndian).value;
              && k + 1 + f.used <= |s|
              && (Stands(nibble, s[k + 1..k + 1 + f.used], f.value) <==>
                    (nibble == 14 ==>
                       && 256 * Int(s[k + 1]) + Int(s[k + 2]) + 269 < 0x1_0000
                       && (littleEndian ==> s[k + 1] == s[k + 2])))
  {
    if nibble == 14 {
      var first, second := s[k + 1], s[k + 2];
      var word: nat := ReadWord(first, second, littleEndian);
      WrapsOnce(word + 269);
      Swapped(first, second);
    }
  }

  /** Swapped bytes never make up for the wrap. */
  lemma Swapped(first: byte, second: byte)
    ensures 256 * Int(second) + Int(first) == 256 * Int(first) + Int(second) <==> first == second
    ensures 256 * Int(second) + Int(first) - 0x1_0000 < 256 * Int(first) + Int(second)
  {
  }
}
