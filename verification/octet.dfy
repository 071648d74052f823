/** Numbers as bytes and back, by their binary digits. */
module Octet {
  function Digit(on: bool, weight: bv8): bv8 { if on then weight else 0 }

  function OfDigits(b0: bool, b1: bool, b2: bool, b3: bool, b4: bool, b5: bool, b6: bool, b7: bool): bv8 {
    Digit(b0, 1) | Digit(b1, 2) | Digit(b2, 4) | Digit(b3, 8)
    | Digit(b4, 16) | Digit(b5, 32) | Digit(b6, 64) | Digit(b7, 128)
  }

  /** The low eight bits of a number: a cast to a byte. */
  function LowByte(n: nat): bv8 {
    var n1 := n / 2; var n2 := n1 / 2; var n3 := n2 / 2; var n4 := n3 / 2;
    var n5 := n4 / 2; var n6 := n5 / 2; var n7 := n6 / 2;
    OfDigits(n % 2 == 1, n1 % 2 == 1, n2 % 2 == 1, n3 % 2 == 1,
             n4 % 2 == 1, n5 % 2 == 1, n6 % 2 == 1, n7 % 2 == 1)
  }

  function Worth(on: bool, weight: nat): nat { if on then weight else 0 }

  function Sum(b0: bool, b1: bool, b2: bool, b3: bool, b4: bool, b5: bool, b6: bool, b7: bool): nat {
    Worth(b0, 1) + Worth(b1, 2) + Worth(b2, 4) + Worth(b3, 8)
    + Worth(b4, 16) + Worth(b5, 32) + Worth(b6, 64) + Worth(b7, 128)
  }

  function Value(b: bv8): nat {
    Sum(b & 1 != 0, b & 2 != 0, b & 4 != 0, b & 8 != 0, b & 16 != 0, b & 32 != 0, b & 64 != 0, b & 128 != 0)
  }

  lemma DigitsOf(b0: bool, b1: bool, b2: bool, b3: bool, b4: bool, b5: bool, b6: bool, b7: bool)
    ensures var b := OfDigits(b0, b1, b2, b3, b4, b5, b6, b7);
            && (b & 1 != 0 <==> b0) && (b & 2 != 0 <==> b1) && (b & 4 != 0 <==> b2) && (b & 8 != 0 <==> b3)
            && (b & 16 != 0 <==> b4) && (b & 32 != 0 <==> b5) && (b & 64 != 0 <==> b6) && (b & 128 != 0 <==> b7)
  {
  }

  /** A byte holds every number below 256. */
  lemma ByteHolds(n: nat)
    requires n < 256
    ensures Value(LowByte(n)) == n
  {
    hide OfDigits, Sum;
    var n1 := n / 2; var n2 := n1 / 2; var n3 := n2 / 2; var n4 := n3 / 2;
    var n5 := n4 / 2; var n6 := n5 / 2; var n7 := n6 / 2;
    DigitsOf(n % 2 == 1, n1 % 2 == 1, n2 % 2 == 1, n3 % 2 == 1, n4 % 2 == 1, n5 % 2 == 1, n6 % 2 == 1, n7 % 2 == 1);
    BinarySum(n, n1, n2, n3, n4, n5, n6, n7);
  }

  lemma BinarySum(n: nat, n1: nat, n2: nat, n3: nat, n4: nat, n5: nat, n6: nat, n7: nat)
    requires n < 256 && n1 == n / 2 && n2 == n1 / 2 && n3 == n2 / 2 && n4 == n3 / 2
    requires n5 == n4 / 2 && n6 == n5 / 2 && n7 == n6 / 2
    ensures Sum(n % 2 == 1, n1 % 2 == 1, n2 % 2 == 1, n3 % 2 == 1,
                n4 % 2 == 1, n5 % 2 == 1, n6 % 2 == 1, n7 % 2 == 1) == n
  {
    WorthOf(n, 1);
    WorthOf(n1, 2);
    WorthOf(n2, 4);
    WorthOf(n3, 8);
    WorthOf(n4, 16);
    WorthOf(n5, 32);
    WorthOf(n6, 64);
    WorthOf(n7, 128);
    hide Worth;
    assert n7 / 2 == 0;
  }

  lemma WorthOf(n: nat, weight: nat)
    ensures Worth(n % 2 == 1, weight) == (n - n / 2 * 2) * weight
  {
  }

  /** The value is the byte as an unsigned number. */
  lemma ValueIs(b: bv8)
    ensures Value(b) == b as int
  {
  }

  /** A number below 256 is its own low byte. */
  lemma LowByteIs(n: nat)
    requires n < 256
    ensures LowByte(n) as int == n
  {
    hide LowByte, Value;
    ByteHolds(n);
    ValueIs(LowByte(n));
  }
}
