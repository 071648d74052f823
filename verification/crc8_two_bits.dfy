/** Changes of exactly two bits: the checksum misses those that are a multiple of 127 bits apart, and no others. */
module Crc8TwoBits {
  import opened Gf2
  import opened Crc8

  // ------------------------------------------------- the order of x

  lemma {:induction false} StepsAdd(c: bv8, m: nat, n: nat)
    ensures BitSteps(c, m + n) == BitSteps(BitSteps(c, m), n)
    decreases n
  {
    hide BitStep;
    if n > 0 {
      StepsAdd(c, m, n - 1);
    }
  }

  lemma Eight(c: bv8, n: nat)
    ensures BitSteps(c, n + 8) ==
            BitStep(BitStep(BitStep(BitStep(BitStep(BitStep(BitStep(BitStep(BitSteps(c, n)))))))))
  {
    hide BitStep;
    var s := BitSteps(c, n + 4);
    assert s == BitStep(BitStep(BitStep(BitStep(BitSteps(c, n))))) by { Four(c, n); }
    Four(c, n + 4);
  }

  lemma Four(c: bv8, n: nat)
    ensures BitSteps(c, n + 4) == BitStep(BitStep(BitStep(BitStep(BitSteps(c, n)))))
  {
    hide BitStep;
    assert BitSteps(c, n + 2) == BitStep(BitStep(BitSteps(c, n)));
    assert BitSteps(c, n + 3) == BitStep(BitSteps(c, n + 2));
  }

  /** x^127 is 1. */
  lemma FullCircle()
    ensures BitSteps(1, 127) == 1
  {
    hide BitSteps;
    StartsAtOne();
    Eight(1, 0);
    assert BitSteps(1, 8) == 49;
    Eight(1, 8);
    assert BitSteps(1, 16) == 244;
    Eight(1, 16);
    assert BitSteps(1, 24) == 70;
    Eight(1, 24);
    assert BitSteps(1, 32) == 155;
    Eight(1, 32);
    assert BitSteps(1, 40) == 211;
    Eight(1, 40);
    assert BitSteps(1, 48) == 87;
    Eight(1, 48);
    assert BitSteps(1, 56) == 233;
    Eight(1, 56);
    assert BitSteps(1, 64) == 73;
    Eight(1, 64);
    assert BitSteps(1, 72) == 181;
    Eight(1, 72);
    assert BitSteps(1, 80) == 74;
    Eight(1, 80);
    assert BitSteps(1, 88) == 230;
    Eight(1, 88);
    assert BitSteps(1, 96) == 103;
    Eight(1, 96);
    assert BitSteps(1, 104) == 44;
    Eight(1, 104);
    assert BitSteps(1, 112) == 251;
    Eight(1, 112);
    assert BitSteps(1, 120) == 104;
    Four(1, 120);
    Three(1, 124);
  }

  lemma StartsAtOne()
    ensures BitSteps(1, 0) == 1
  {
  }

  lemma Three(c: bv8, n: nat)
    ensures BitSteps(c, n + 3) == BitStep(BitStep(BitStep(BitSteps(c, n))))
  {
    hide BitStep;
    assert BitSteps(c, n + 2) == BitStep(BitStep(BitSteps(c, n)));
  }

  lemma {:induction false} CirclesAway(n: nat, q: nat, r: nat)
    requires BitSteps(1, n) == 1
    ensures BitSteps(1, q * n + r) == BitSteps(1, r)
    decreases q
  {
    if q > 0 {
      assert q * n + r == n + ((q - 1) * n + r);
      StepsAdd(1, n, (q - 1) * n + r);
      CirclesAway(n, q - 1, r);
    }
  }

  lemma NoProduct(q: nat, n: nat)
    requires 1 <= q <= 10 && 1 < n < 127
    ensures q * n != 127
  {
    if q == 1 { assert q * n == n; }
    else if q == 2 { assert q * n == 2 * n; }
    else if q == 3 { assert q * n == 3 * n; }
    else if q == 4 { assert q * n == 4 * n; }
    else if q == 5 { assert q * n == 5 * n; }
    else if q == 6 { assert q * n == 6 * n; }
    else if q == 7 { assert q * n == 7 * n; }
    else if q == 8 { assert q * n == 8 * n; }
    else if q == 9 { assert q * n == 9 * n; }
    else { assert q * n == 10 * n; }
  }

  lemma SmallQuotient(n: nat)
    requires 12 <= n < 127
    ensures 1 <= 127 / n <= 10
  {
    var q := 127 / n;
    assert 127 == q * n + 127 % n;
    ElevenTimes(q, n);
  }

  lemma ElevenTimes(q: nat, n: nat)
    ensures q >= 11 ==> q * n >= 11 * n
  {
  }

  /** 127 is prime. */
  lemma HasNoDivisor(n: nat)
    requires 1 < n < 127
    ensures 127 % n != 0
  {
    if n <= 11 {
      assert n in [2, 3, 4, 5, 6, 7, 8, 9, 10, 11];
    } else {
      SmallQuotient(n);
      NoProduct(127 / n, n);
      assert 127 == (127 / n) * n + 127 % n;
    }
  }

  /** No smaller power is: by Euclid's descent from 127, which is prime. */
  lemma {:induction false} NoShorterCircle(n: nat)
    requires 0 < n < 127
    ensures BitSteps(1, n) != 1
    decreases n
  {
    if n == 1 {
      StartsAtOne();
      assert BitSteps(1, 1) == BitStep(BitSteps(1, 0));
    } else if BitSteps(1, n) == 1 {
      HasNoDivisor(n);
      var q, r := 127 / n, 127 % n;
      assert 127 == q * n + r;
      FullCircle();
      CirclesAway(n, q, r);
      NoShorterCircle(r);
      assert false;
    }
  }

  lemma OrderIs127(k: nat)
    ensures BitSteps(1, k) == 1 <==> k % 127 == 0
  {
    var q, r := k / 127, k % 127;
    assert k == q * 127 + r;
    FullCircle();
    CirclesAway(127, q, r);
    if r == 0 {
      StartsAtOne();
    } else {
      NoShorterCircle(r);
    }
  }

  // ------------------------------------------------------- two terms

  lemma OneBit()
    ensures Bits(1) == {0}
  {
    assert Bit(1, 0);
    assert !Bit(1, 1) && !Bit(1, 2) && !Bit(1, 3) && !Bit(1, 4) && !Bit(1, 5) && !Bit(1, 6) && !Bit(1, 7);
  }

  lemma PowerIs(k: nat)
    ensures Congruent({k}, {0}) <==> BitSteps(1, k) == 1
  {
    hide BitSteps, Bits, Congruent;
    OneBit();
    assert Shift({0}, k) == {k} by {
      forall e: nat ensures e in Shift({0}, k) <==> e == k {
        InShift({0}, k, e);
      }
    }
    StepsBits(1, k);
    if Congruent({k}, {0}) {
      CongruentSym({k}, Bits(BitSteps(1, k)));
      CongruentTrans(Bits(BitSteps(1, k)), {k}, {0});
      BitsReduced(BitSteps(1, k));
      ReducedUnique(Bits(BitSteps(1, k)), Bits(1));
      BitsInjective(BitSteps(1, k), 1);
    }
  }

  lemma PairShifts(i: nat, k: nat)
    requires k > 0
    ensures Congruent({i, i + k}, {}) <==> Congruent({k}, {0})
  {
    var pair: Poly := {0, k};
    assert Shift(pair, i) == {i, i + k} by {
      forall e: nat ensures e in Shift(pair, i) <==> e == i || e == i + k {
        InShift(pair, i, e);
      }
    }
    assert Add({k}, {0}) == pair && Add(pair, {}) == pair;
    assert Congruent(pair, {}) <==> Congruent({k}, {0});
    if Congruent(pair, {}) {
      CongruentShifts(pair, {}, i);
      ShiftNone(i);
    }
    if Congruent(Shift(pair, i), {}) {
      CancelShift(pair, i);
    }
  }

  /** Two changed bits go unnoticed exactly if their distance is a multiple of 127. */
  lemma PairUnnoticed(a: seq<bv8>, b: seq<bv8>, i: nat, k: nat)
    requires |a| == |b| && k > 0 && Difference(a, b) == {i, i + k}
    ensures Crc(a) == Crc(b) <==> k % 127 == 0
  {
    hide Crc, Difference, Congruent, BitSteps;
    SameCrc(a, b);
    PairShifts(i, k);
    PowerIs(k);
    OrderIs127(k);
  }

  // ------------------------------------------------------- an unnoticed pair

  lemma {:induction false} MessageEnds(data: seq<bv8>)
    ensures forall e :: e in Message(data) ==> e < 8 * |data|
  {
    hide Bits;
    if data != [] {
      var init, last := data[..|data| - 1], data[|data| - 1];
      MessageEnds(init);
      BitsReduced(last);
      forall e | e in Message(data) ensures e < 8 * |data| {
        InShift(Message(init), 8, e);
      }
    }
  }

  /** Each bit of the data, by its exponent. */
  lemma BitOfMessage(data: seq<bv8>, e: nat)
    requires e < 8 * |data|
    ensures e in Message(data) <==> Bit(data[|data| - 1 - e / 8], e % 8)
  {
    hide Bit, Message;
    assert e == 8 * (e / 8) + e % 8;
    MessageBit(data, |data| - 1 - e / 8, e % 8);
  }

  const ORIGINAL: seq<bv8> := [2, 2, 2, 2, 2, 2, 2, 2, 2, 2, 2, 2, 2, 2, 2, 2]
  const ALTERED: seq<bv8> := [0x82, 2, 2, 2, 2, 2, 2, 2, 2, 2, 2, 2, 2, 2, 2, 3]

  lemma AlteredBit(e: nat)
    requires e < 128
    ensures Bit(ORIGINAL[15 - e / 8], e % 8) != Bit(ALTERED[15 - e / 8], e % 8) <==> e == 0 || e == 127
  {
    if e / 8 == 0 {
      LowestBit(e % 8);
    } else if e / 8 == 15 {
      HighestBit(e % 8);
      assert e == 127 <==> e % 8 == 7;
    } else {
      assert ORIGINAL[15 - e / 8] == ALTERED[15 - e / 8];
    }
  }

  lemma LowestBit(j: nat)
    requires j < 8
    ensures Bit(2, j) != Bit(3, j) <==> j == 0
  {
  }

  lemma HighestBit(j: nat)
    requires j < 8
    ensures Bit(2, j) != Bit(0x82, j) <==> j == 7
  {
  }

  lemma PairOf127()
    ensures Difference(ORIGINAL, ALTERED) == {0, 0 + 127}
  {
    hide Bit, Message;
    MessageEnds(ORIGINAL);
    MessageEnds(ALTERED);
    forall e: nat ensures e in Difference(ORIGINAL, ALTERED) <==> e == 0 || e == 127 {
      if e < 128 {
        BitOfMessage(ORIGINAL, e);
        BitOfMessage(ALTERED, e);
        AlteredBit(e);
      }
    }
  }

  /** Sixteen bytes and what two flipped bits make of them, with one checksum. */
  lemma SameChecksum()
    ensures ORIGINAL != ALTERED && Crc(ORIGINAL) == Crc(ALTERED)
  {
    hide Crc, Difference;
    PairOf127();
    PairUnnoticed(ORIGINAL, ALTERED, 0, 127);
    assert ORIGINAL[0] != ALTERED[0];
  }
}
