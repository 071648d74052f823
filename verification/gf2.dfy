/**
 Polynomials over GF(2), each the finite set of the exponents of its terms, and
 congruence modulo x^8 + x^5 + x^4 + 1.
 */
module Gf2 {
  type Poly = set<nat>

  /** The sum: the terms that exactly one of the two has. */
  function Add(a: Poly, b: Poly): Poly { (a - b) + (b - a) }

  /** The product with x^k. */
  function Shift(a: Poly, k: nat): Poly { set e | e in a :: e + k }

  const P: Poly := {8, 5, 4, 0}

  /** The product of `q` with the modulus. */
  function TimesP(q: Poly): Poly {
    Add(Add(Shift(q, 8), Shift(q, 5)), Add(Shift(q, 4), q))
  }

  ghost predicate Congruent(a: Poly, b: Poly) { exists q :: Add(a, b) == TimesP(q) }

  predicate Reduced(a: Poly) { forall e :: e in a ==> e < 8 }

  // ------------------------------------------------------------ the algebra

  lemma InShift(a: Poly, k: nat, e: nat)
    ensures e in Shift(a, k) <==> e >= k && e - k in a
  {
    if e >= k && e - k in a {
      assert (e - k) + k == e;
    }
  }

  lemma InTimesP(q: Poly, e: nat)
    ensures e in TimesP(q) <==>
              ((((e >= 8 && e - 8 in q) != (e >= 5 && e - 5 in q)) != (e >= 4 && e - 4 in q)) != (e in q))
  {
    InShift(q, 8, e);
    InShift(q, 5, e);
    InShift(q, 4, e);
  }

  lemma ShiftAdds(a: Poly, b: Poly, k: nat)
    ensures Shift(Add(a, b), k) == Add(Shift(a, k), Shift(b, k))
  {
    forall e: nat ensures e in Shift(Add(a, b), k) <==> e in Add(Shift(a, k), Shift(b, k)) {
      InShift(Add(a, b), k, e);
      InShift(a, k, e);
      InShift(b, k, e);
    }
  }

  lemma ShiftShifts(a: Poly, j: nat, k: nat)
    ensures Shift(Shift(a, j), k) == Shift(a, j + k)
  {
    forall e: nat ensures e in Shift(Shift(a, j), k) <==> e in Shift(a, j + k) {
      InShift(Shift(a, j), k, e);
      InShift(a, j + k, e);
      if e >= k { InShift(a, j, e - k); }
    }
  }

  lemma TimesPAdds(q: Poly, r: Poly)
    ensures TimesP(Add(q, r)) == Add(TimesP(q), TimesP(r))
  {
    forall e: nat ensures e in TimesP(Add(q, r)) <==> e in Add(TimesP(q), TimesP(r)) {
      InTimesP(q, e);
      InTimesP(r, e);
      InTimesP(Add(q, r), e);
    }
  }

  lemma TimesPShifts(q: Poly, k: nat)
    ensures TimesP(Shift(q, k)) == Shift(TimesP(q), k)
  {
    hide Add, Shift;
    ShiftsCommute(q, k, 8);
    ShiftsCommute(q, k, 5);
    ShiftsCommute(q, k, 4);
    ShiftAdds(Shift(q, 8), Shift(q, 5), k);
    ShiftAdds(Shift(q, 4), q, k);
    ShiftAdds(Add(Shift(q, 8), Shift(q, 5)), Add(Shift(q, 4), q), k);
  }

  lemma ShiftsCommute(a: Poly, j: nat, k: nat)
    ensures Shift(Shift(a, j), k) == Shift(Shift(a, k), j)
  {
    ShiftShifts(a, j, k);
    ShiftShifts(a, k, j);
    assert j + k == k + j;
  }

  lemma ShiftInjective(a: Poly, b: Poly, k: nat)
    requires Shift(a, k) == Shift(b, k)
    ensures a == b
  {
    forall e: nat ensures e in a <==> e in b {
      InShift(a, k, e + k);
      InShift(b, k, e + k);
    }
  }

  lemma AddNone(a: Poly)
    ensures Add(a, {}) == a
  {
  }

  // --------------------------------------------------------- the congruence

  lemma CongruentBy(a: Poly, b: Poly, q: Poly)
    requires Add(a, b) == TimesP(q)
    ensures Congruent(a, b)
  {
  }

  lemma CongruentSame(a: Poly)
    ensures Congruent(a, a)
  {
    assert Add(a, a) == TimesP({});
  }

  lemma CongruentTrans(a: Poly, b: Poly, c: Poly)
    requires Congruent(a, b) && Congruent(b, c)
    ensures Congruent(a, c)
  {
    var q :| Add(a, b) == TimesP(q);
    var r :| Add(b, c) == TimesP(r);
    TimesPAdds(q, r);
    assert Add(a, c) == Add(Add(a, b), Add(b, c));
    CongruentBy(a, c, Add(q, r));
  }

  lemma CongruentSym(a: Poly, b: Poly)
    requires Congruent(a, b)
    ensures Congruent(b, a)
  {
    var q :| Add(a, b) == TimesP(q);
    assert Add(b, a) == Add(a, b);
    CongruentBy(b, a, q);
  }

  lemma CongruentAdds(a: Poly, b: Poly, c: Poly, d: Poly)
    requires Congruent(a, b) && Congruent(c, d)
    ensures Congruent(Add(a, c), Add(b, d))
  {
    var q :| Add(a, b) == TimesP(q);
    var r :| Add(c, d) == TimesP(r);
    TimesPAdds(q, r);
    assert Add(Add(a, c), Add(b, d)) == Add(Add(a, b), Add(c, d));
    CongruentBy(Add(a, c), Add(b, d), Add(q, r));
  }

  lemma CongruentShifts(a: Poly, b: Poly, k: nat)
    requires Congruent(a, b)
    ensures Congruent(Shift(a, k), Shift(b, k))
  {
    var q :| Add(a, b) == TimesP(q);
    ShiftAdds(a, b, k);
    TimesPShifts(q, k);
    CongruentBy(Shift(a, k), Shift(b, k), Shift(q, k));
  }

  // ---------------------------------------------- what is divisible by the modulus

  ghost predicate IsDegree(q: Poly, d: nat) { d in q && forall e :: e in q ==> e <= d }

  ghost function Degree(q: Poly): (d: nat)
    requires q != {}
    ensures IsDegree(q, d)
  {
    HasDegree(q);
    var d :| IsDegree(q, d);
    d
  }

  lemma {:induction false} HasDegree(q: Poly)
    requires q != {}
    ensures exists d :: IsDegree(q, d)
    decreases |q|
  {
    var x :| x in q;
    var rest := q - {x};
    if rest == {} {
      OneTerm(q, x);
    } else {
      HasDegree(rest);
      hide IsDegree;
      var d :| IsDegree(rest, d);
      MoreTerms(q, x, d);
    }
  }

  lemma OneTerm(q: Poly, x: nat)
    requires x in q && q - {x} == {}
    ensures IsDegree(q, x)
  {
    forall e | e in q ensures e <= x {
      assert e !in q - {x};
    }
  }

  lemma MoreTerms(q: Poly, x: nat, d: nat)
    requires x in q && IsDegree(q - {x}, d)
    ensures IsDegree(q, if x > d then x else d)
  {
    forall e | e in q ensures e <= if x > d then x else d {
      assert e == x || e in q - {x};
    }
  }

  /** A nonzero multiple of the modulus has a term of degree eight or more. */
  lemma MultipleHasDegree(q: Poly)
    requires q != {}
    ensures exists e :: e in TimesP(q) && e >= 8
  {
    var d := Degree(q);
    InTimesP(q, d + 8);
    assert d + 8 in TimesP(q);
  }

  /** Remainders are unique. */
  lemma ReducedUnique(a: Poly, b: Poly)
    requires Reduced(a) && Reduced(b) && Congruent(a, b)
    ensures a == b
  {
    var q :| Add(a, b) == TimesP(q);
    if q != {} {
      MultipleHasDegree(q);
      assert false;
    }
    assert TimesP({}) == {};
    forall e ensures e in a <==> e in b {
      assert e !in Add(a, b);
    }
  }

  /** x is invertible modulo the modulus, since the modulus has a constant term. */
  lemma {:induction false} CancelShift(a: Poly, k: nat)
    requires Congruent(Shift(a, k), {})
    ensures Congruent(a, {})
    decreases k
  {
    if k == 0 {
      assert Shift(a, 0) == a;
    } else {
      ShiftShifts(a, k - 1, 1);
      CancelOne(Shift(a, k - 1));
      CancelShift(a, k - 1);
    }
  }

  lemma CancelOne(b: Poly)
    requires Congruent(Shift(b, 1), {})
    ensures Congruent(b, {})
  {
    hide TimesP;
    var q :| Add(Shift(b, 1), {}) == TimesP(q);
    AddNone(Shift(b, 1));
    InTimesP(q, 0);
    InShift(b, 1, 0);
    var r := Lower(q);
    TimesPShifts(r, 1);
    ShiftInjective(b, TimesP(r), 1);
    AddNone(b);
    CongruentBy(b, {}, r);
  }

  /** The quotient by x of a polynomial without constant term. */
  lemma Lower(q: Poly) returns (r: Poly)
    requires 0 !in q
    ensures Shift(r, 1) == q
  {
    r := set e | e in q :: e - 1;
    forall e: nat ensures e in Shift(r, 1) <==> e in q {
      InShift(r, 1, e);
      if e in q { assert e - 1 in r; }
    }
  }

  lemma AddSize(a: Poly, b: Poly)
    ensures |Add(a, b)| % 2 == (|a| + |b|) % 2
  {
    SplitSize(a, b);
    SplitSize(b, a);
    assert a * b == b * a;
    assert |Add(a, b)| == |a - b| + |b - a|;
  }

  lemma SplitSize(a: Poly, b: Poly)
    ensures |a| == |a - b| + |a * b|
  {
    assert a == (a - b) + (a * b);
  }

  lemma {:induction false} ShiftSize(a: Poly, k: nat)
    ensures |Shift(a, k)| == |a|
  {
    if a == {} {
      assert Shift(a, k) == {};
    } else {
      var x :| x in a;
      ShiftSize(a - {x}, k);
      InShift(a - {x}, k, x + k);
      forall e: nat ensures e in Shift(a, k) <==> e in Shift(a - {x}, k) + {x + k} {
        InShift(a, k, e);
        InShift(a - {x}, k, e);
      }
      assert Shift(a, k) == Shift(a - {x}, k) + {x + k};
    }
  }

  /** The modulus is divisible by x + 1, so its multiples have an even number of terms. */
  lemma MultipleIsEven(q: Poly)
    ensures |TimesP(q)| % 2 == 0
  {
    hide Add, Shift;
    ShiftSize(q, 8);
    ShiftSize(q, 5);
    ShiftSize(q, 4);
    AddSize(Shift(q, 8), Shift(q, 5));
    AddSize(Shift(q, 4), q);
    AddSize(Add(Shift(q, 8), Shift(q, 5)), Add(Shift(q, 4), q));
  }

  /** A polynomial with an odd number of terms is not divisible by the modulus. */
  lemma OddNotDivisible(a: Poly)
    requires |a| % 2 == 1
    ensures !Congruent(a, {})
  {
    if Congruent(a, {}) {
      var q :| Add(a, {}) == TimesP(q);
      assert Add(a, {}) == a;
      MultipleIsEven(q);
    }
  }

  /** Terms within eight consecutive exponents do not add up to a multiple of the modulus. */
  lemma BurstNotDivisible(a: Poly, k: nat)
    requires a != {} && forall e :: e in a ==> k <= e < k + 8
    ensures !Congruent(a, {})
  {
    if Congruent(a, {}) {
      var b: Poly := set e | e in a :: e - k;
      forall e: nat ensures e in Shift(b, k) <==> e in a {
        InShift(b, k, e);
        if e in a { assert e - k in b; }
      }
      assert Shift(b, k) == a;
      var e :| e in a;
      assert e - k in b;
      CancelShift(b, k);
      ReducedUnique(b, {});
    }
  }
}
