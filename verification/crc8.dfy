/**
 The checksum both peers compute: a shift-and-xor loop over a byte register, and what
 it means as polynomial arithmetic.
 */
module Crc8 {
  import opened Gf2

  // ------------------------------------------------------------ the register

  function BitStep(c: bv8): bv8 { if c & 0x80 != 0 then (c << 1) ^ 0x31 else c << 1 }

  function BitSteps(c: bv8, n: nat): bv8 { if n == 0 then c else BitStep(BitSteps(c, n - 1)) }

  function Crc(data: seq<bv8>): bv8 {
    if data == [] then 0xFF else BitSteps(Crc(data[..|data| - 1]) ^ data[|data| - 1], 8)
  }

  method CalculateCrc(data: array<bv8>, start: nat, len: nat) returns (crc: bv8)
    requires start + len <= data.Length
    ensures crc == Crc(data[start..start + len])
  {
    crc := 0xFF;
    for i := 0 to len
      invariant crc == Crc(data[start..start + i])
    {
      crc := crc ^ data[start + i];
      ghost var mixed := crc;
      for j := 0 to 8
        invariant crc == BitSteps(mixed, j)
      {
        if crc & 0x80 != 0 {
          crc := (crc << 1) ^ 0x31;
        } else {
          crc := crc << 1;
        }
      }
      assert data[start..start + i + 1][..i] == data[start..start + i];
    }
  }

  // ------------------------------------------------- bytes as polynomials

  /** The weight of bit `e`. */
  function Weight(e: nat): bv8
    requires e < 8
  {
    match e
    case 0 => 1 case 1 => 2 case 2 => 4 case 3 => 8
    case 4 => 16 case 5 => 32 case 6 => 64 case _ => 128
  }

  predicate Bit(b: bv8, e: nat) { e < 8 && b & Weight(e) != 0 }

  function Bits(b: bv8): Poly { set e: nat | e < 8 && Bit(b, e) }

  lemma BitsReduced(b: bv8)
    ensures Reduced(Bits(b))
  {
  }

  lemma BitsXor(a: bv8, b: bv8)
    ensures Bits(a ^ b) == Add(Bits(a), Bits(b))
  {
    forall e: nat | e < 8 ensures Bit(a ^ b, e) <==> Bit(a, e) != Bit(b, e) {
      XorWeight(a, b, Weight(e));
    }
  }

  lemma XorWeight(a: bv8, b: bv8, w: bv8)
    requires w in {1, 2, 4, 8, 16, 32, 64, 128}
    ensures (a ^ b) & w != 0 <==> (a & w != 0) != (b & w != 0)
  {
  }

  lemma BitsInjective(a: bv8, b: bv8)
    requires Bits(a) == Bits(b)
    ensures a == b
  {
    forall e: nat | e < 8 ensures Bit(a, e) <==> Bit(b, e) {
      assert e in Bits(a) <==> e in Bits(b);
    }
    SameBits(a, b);
  }

  lemma SameBits(a: bv8, b: bv8)
    requires forall e: nat :: e < 8 ==> (Bit(a, e) <==> Bit(b, e))
    ensures a == b
  {
    assert Bit(a, 0) <==> Bit(b, 0);
    assert Bit(a, 1) <==> Bit(b, 1);
    assert Bit(a, 2) <==> Bit(b, 2);
    assert Bit(a, 3) <==> Bit(b, 3);
    assert Bit(a, 4) <==> Bit(b, 4);
    assert Bit(a, 5) <==> Bit(b, 5);
    assert Bit(a, 6) <==> Bit(b, 6);
    assert Bit(a, 7) <==> Bit(b, 7);
  }

  /** Multiplication by x without the reduction. */
  lemma BitsDouble(c: bv8)
    ensures Shift(Bits(c), 1) == Bits(c << 1) + if c & 0x80 != 0 then {8} else {}
  {
    forall e: nat ensures e in Shift(Bits(c), 1) <==> e in Bits(c << 1) + if c & 0x80 != 0 then {8} else {} {
      InShift(Bits(c), 1, e);
      DoubleBit(c, e);
    }
  }

  lemma DoubleBit(c: bv8, e: nat)
    ensures e >= 1 && Bit(c, e - 1) <==> Bit(c << 1, e) || (e == 8 && c & 0x80 != 0)
  {
  }

  lemma StepBits(c: bv8)
    ensures Congruent(Shift(Bits(c), 1), Bits(BitStep(c)))
  {
    BitsDouble(c);
    if c & 0x80 != 0 {
      BitsXor(c << 1, 0x31);
      assert Bits(0x31) == {5, 4, 0} by {
        assert Bit(0x31, 5) && Bit(0x31, 4) && Bit(0x31, 0);
        assert !Bit(0x31, 1) && !Bit(0x31, 2) && !Bit(0x31, 3) && !Bit(0x31, 6) && !Bit(0x31, 7);
      }
      BitsReduced(c << 1);
      Overflow(Bits(c << 1));
      ModulusItself();
      CongruentBy(Shift(Bits(c), 1), Bits(BitStep(c)), {0});
    } else {
      CongruentSame(Bits(c << 1));
    }
  }

  /** Dropping the ninth bit and adding the rest of the modulus subtracts the modulus. */
  lemma Overflow(b: Poly)
    requires Reduced(b)
    ensures Add(b + {8}, Add(b, {5, 4, 0})) == P
  {
  }

  lemma ModulusItself()
    ensures TimesP({0}) == P
  {
    forall e: nat ensures e in TimesP({0}) <==> e in P {
      InTimesP({0}, e);
    }
  }

  lemma {:induction false} StepsBits(c: bv8, n: nat)
    ensures Congruent(Shift(Bits(c), n), Bits(BitSteps(c, n)))
  {
    hide BitStep, Bits, Shift, Congruent;
    if n == 0 {
      ShiftZero(Bits(c));
      CongruentSame(Bits(c));
    } else {
      var before := BitSteps(c, n - 1);
      StepsBits(c, n - 1);
      CongruentShifts(Shift(Bits(c), n - 1), Bits(before), 1);
      ShiftShifts(Bits(c), n - 1, 1);
      StepBits(before);
      assert BitSteps(c, n) == BitStep(before);
      CongruentTrans(Shift(Bits(c), n), Shift(Bits(before), 1), Bits(BitSteps(c, n)));
    }
  }

  // ------------------------------------------------- messages as polynomials

  /** The bits of the data, first byte highest. */
  function Message(data: seq<bv8>): Poly {
    if data == [] then {} else Add(Shift(Message(data[..|data| - 1]), 8), Bits(data[|data| - 1]))
  }

  /** What is divided: the message with eight zero bits behind it and the preset in front. */
  function Dividend(data: seq<bv8>): Poly {
    Add(Shift(Message(data), 8), Shift(Bits(0xFF), 8 * |data|))
  }

  lemma {:induction false} CrcCongruent(data: seq<bv8>)
    ensures Congruent(Dividend(data), Bits(Crc(data)))
  {
    hide Bits, BitSteps;
    if data == [] {
      assert Shift({}, 8) == {};
      assert Shift(Bits(0xFF), 0) == Bits(0xFF);
      assert Dividend(data) == Bits(0xFF);
      CongruentSame(Bits(0xFF));
    } else {
      var init, last := data[..|data| - 1], data[|data| - 1];
      var mixed := Crc(init) ^ last;
      CrcCongruent(init);
      CongruentSame(Bits(last));
      CongruentAdds(Dividend(init), Bits(Crc(init)), Bits(last), Bits(last));
      BitsXor(Crc(init), last);
      CongruentShifts(Add(Dividend(init), Bits(last)), Bits(mixed), 8);
      DividendStep(data);
      StepsBits(mixed, 8);
      CongruentTrans(Dividend(data), Shift(Bits(mixed), 8), Bits(Crc(data)));
    }
  }

  lemma DividendStep(data: seq<bv8>)
    requires data != []
    ensures Dividend(data) == Shift(Add(Dividend(data[..|data| - 1]), Bits(data[|data| - 1])), 8)
  {
    hide Bits, Add, Shift;
    var init, last := data[..|data| - 1], data[|data| - 1];
    var m, b, p := Message(init), Bits(last), Bits(0xFF);
    var n := 8 * |init|;
    ShiftAdds(Add(Shift(m, 8), Shift(p, n)), b, 8);
    ShiftAdds(Shift(m, 8), Shift(p, n), 8);
    ShiftShifts(p, n, 8);
    ShiftAdds(Shift(m, 8), b, 8);
    AddSwaps(Shift(Shift(m, 8), 8), Shift(p, n + 8), Shift(b, 8));
  }

  lemma AddSwaps(a: Poly, b: Poly, c: Poly)
    ensures Add(Add(a, b), c) == Add(Add(a, c), b)
  {
  }

  /** The checksum is the remainder of the dividend: reduced, congruent, and the only one. */
  lemma CrcIsRemainder(data: seq<bv8>, r: Poly)
    ensures Reduced(r) && Congruent(Dividend(data), r) <==> r == Bits(Crc(data))
  {
    hide Bits, Dividend, Crc;
    CrcCongruent(data);
    BitsReduced(Crc(data));
    if Reduced(r) && Congruent(Dividend(data), r) {
      CongruentSym(Dividend(data), r);
      CongruentTrans(r, Dividend(data), Bits(Crc(data)));
      ReducedUnique(r, Bits(Crc(data)));
    }
  }

  // ------------------------------------------------------- error detection

  /** The bits in which two messages differ. */
  function Difference(a: seq<bv8>, b: seq<bv8>): Poly { Add(Message(a), Message(b)) }

  /** Data of equal length have equal checksums exactly if the modulus divides their difference. */
  lemma SameCrc(a: seq<bv8>, b: seq<bv8>)
    requires |a| == |b|
    ensures Crc(a) == Crc(b) <==> Congruent(Difference(a, b), {})
  {
    hide Bits, Crc, Message, Shift, Add;
    var d, p := Difference(a, b), Shift(Bits(0xFF), 8 * |a|);
    var r := Add(Bits(Crc(a)), Bits(Crc(b)));
    CrcCongruent(a);
    CrcCongruent(b);
    CongruentAdds(Dividend(a), Bits(Crc(a)), Dividend(b), Bits(Crc(b)));
    CommonCancels(Shift(Message(a), 8), Shift(Message(b), 8), p);
    ShiftAdds(Message(a), Message(b), 8);
    assert Congruent(Shift(d, 8), r);
    if Crc(a) == Crc(b) {
      AddSelf(Bits(Crc(a)));
      CancelShift(d, 8);
    }
    if Congruent(d, {}) {
      CongruentShifts(d, {}, 8);
      ShiftNone(8);
      CongruentSym(Shift(d, 8), r);
      CongruentTrans(r, Shift(d, 8), {});
      AddReduced(Crc(a), Crc(b));
      ReducedUnique(r, {});
      AddNothing(Bits(Crc(a)), Bits(Crc(b)));
      BitsInjective(Crc(a), Crc(b));
    }
  }

  lemma CommonCancels(a: Poly, b: Poly, p: Poly)
    ensures Add(Add(a, p), Add(b, p)) == Add(a, b)
  {
  }

  lemma AddSelf(a: Poly)
    ensures Add(a, a) == {}
  {
  }

  lemma AddNothing(a: Poly, b: Poly)
    requires Add(a, b) == {}
    ensures a == b
  {
    forall e ensures e in a <==> e in b {
      assert e !in Add(a, b);
    }
  }

  lemma ShiftZero(a: Poly)
    ensures Shift(a, 0) == a
  {
  }

  lemma ShiftNone(k: nat)
    ensures Shift({}, k) == {}
  {
  }

  lemma AddReduced(a: bv8, b: bv8)
    ensures Reduced(Add(Bits(a), Bits(b)))
  {
  }

  /** Bit `j` of byte `i` has its own exponent in the message. */
  lemma {:induction false} MessageBit(data: seq<bv8>, i: nat, j: nat)
    requires i < |data| && j < 8
    ensures 8 * (|data| - 1 - i) + j in Message(data) <==> Bit(data[i], j)
  {
    hide Bit;
    var n := |data| - 1;
    var init := data[..n];
    var e := 8 * (n - i) + j;
    InShift(Message(init), 8, e);
    if i < n {
      MessageBit(init, i, j);
    }
  }

  /** Different data of equal length differ in some bit. */
  lemma DifferentMessages(a: seq<bv8>, b: seq<bv8>)
    requires |a| == |b| && a != b
    ensures Difference(a, b) != {}
  {
    hide Bit, Message;
    if Difference(a, b) == {} {
      AddNothing(Message(a), Message(b));
      forall i | 0 <= i < |a| ensures a[i] == b[i] {
        forall j: nat | j < 8 ensures Bit(a[i], j) <==> Bit(b[i], j) {
          MessageBit(a, i, j);
          MessageBit(b, i, j);
        }
        SameBits(a[i], b[i]);
      }
      assert false;
    }
  }

  /** A change within eight consecutive bits always changes the checksum. */
  lemma BurstDetected(a: seq<bv8>, b: seq<bv8>, k: nat)
    requires |a| == |b| && a != b
    requires forall e :: e in Difference(a, b) ==> k <= e < k + 8
    ensures Crc(a) != Crc(b)
  {
    SameCrc(a, b);
    DifferentMessages(a, b);
    BurstNotDivisible(Difference(a, b), k);
  }

  /** A change of an odd number of bits always changes the checksum. */
  lemma OddDetected(a: seq<bv8>, b: seq<bv8>)
    requires |a| == |b| && |Difference(a, b)| % 2 == 1
    ensures Crc(a) != Crc(b)
  {
    SameCrc(a, b);
    OddNotDivisible(Difference(a, b));
  }
}
