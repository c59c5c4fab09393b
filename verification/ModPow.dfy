/** Modular exponentiation by squaring on big integers. */
module ModPowers {
  import opened HeftyIntegers
  import opened Numerals
  import opened Options

  lemma {:induction false} PowerSquare(b: int, e: nat)
    ensures Pow(b, 2 * e) == Pow(b * b, e)
  {
    if e > 0 {
      PowerSquare(b, e - 1);
      assert Pow(b, 2 * e) == b * (b * Pow(b, 2 * e - 2));
      assert b * (b * Pow(b, 2 * e - 2)) == (b * b) * Pow(b, 2 * e - 2);
    }
  }

  /** Equal remainders. */
  ghost predicate Congruent(a: int, b: int, n: int)
    requires n > 0
  {
    a % n == b % n
  }

  lemma CongruentByMultiple(a: int, b: int, k: int, n: int)
    requires n > 0 && a == b + k * n
    ensures Congruent(a, b, n)
  {
    DivPlusMultiple(b, k, n);
  }

  lemma CongruentTimes(a: int, b: int, c: int, n: int)
    requires n > 0 && Congruent(a, b, n)
    ensures Congruent(a * c, b * c, n) && Congruent(c * a, c * b, n)
  {
    var k := a / n - b / n;
    assert a == b + k * n by {
      assert a == a / n * n + a % n && b == b / n * n + b % n;
    }
    assert (b + k * n) * c == b * c + (k * c) * n;
    CongruentByMultiple(a * c, b * c, k * c, n);
  }

  lemma RemainderIsCongruent(a: int, n: int)
    requires n > 0
    ensures Congruent(a % n, a, n) && 0 <= a % n < n
  {
    CongruentByMultiple(a, a % n, a / n, n);
  }

  lemma {:induction false} CongruentPower(a: int, b: int, e: nat, n: int)
    requires n > 0 && Congruent(a, b, n)
    ensures Congruent(Pow(a, e), Pow(b, e), n)
  {
    if e > 0 {
      CongruentPower(a, b, e - 1, n);
      CongruentTimes(a, b, Pow(a, e - 1), n);
      CongruentTimes(Pow(a, e - 1), Pow(b, e - 1), b, n);
    }
  }

  /** One round: `r * y^x` keeps its remainder when the lowest bit of `x` is dealt with. */
  lemma RoundKeeps(r: int, y: int, x: nat, n: int, r': int, y': int)
    requires n > 0 && x > 0
    requires r' == (if x % 2 == 1 then r * y % n else r) && y' == y * y % n
    ensures Congruent(r' * Pow(y', x / 2), r * Pow(y, x), n)
  {
    hide Congruent, Pow;
    var e := x / 2;
    var rest := Pow(y, 2 * e);
    PowHalf(y, x);
    RemainderIsCongruent(y * y, n);
    CongruentPower(y', y * y, e, n);
    CongruentTimes(Pow(y', e), rest, r', n);
    if x % 2 == 1 {
      RemainderIsCongruent(r * y, n);
      CongruentTimes(r', r * y, rest, n);
      assert (r * y) * rest == r * (y * rest);
      CongruentTrans(r' * Pow(y', e), r' * rest, r * Pow(y, x), n);
    }
  }

  lemma PowHalf(y: int, x: nat)
    ensures Pow(y * y, x / 2) == Pow(y, 2 * (x / 2))
    ensures Pow(y, x) == if x % 2 == 1 then y * Pow(y, 2 * (x / 2)) else Pow(y, 2 * (x / 2))
  {
    PowerSquare(y, x / 2);
  }

  lemma CongruentTrans(a: int, b: int, c: int, n: int)
    requires n > 0 && Congruent(a, b, n) && Congruent(b, c, n)
    ensures Congruent(a, c, n)
  {
  }

  lemma LowestBit(x: HeftyInteger)
    requires x.Valid() && x.Value() >= 0
    ensures BitOf(Unsigned(x.val[..]), 0) == x.Value() % 2 && Pow(2, 1) == 2
  {
    SignedRange(x.val[..]);
    assert Pow(2, 0) == 1 && Pow(2, 1) == 2 * Pow(2, 0);
  }

  /** The exponent after `k` rounds, each of which shifts it right by one bit. */
  function Halved(x: int, k: nat): int {
    if k == 0 then x else Halved(x, k - 1) / 2
  }

  /** The exponent reaches 0, and the loop ends, exactly for exponents that are not negative; `x` rounds
      are enough for `x`. */
  lemma RoundsEnd(x: int)
    ensures (exists k: nat :: Halved(x, k) == 0) <==> x >= 0
    ensures x >= 0 ==> forall k: nat :: k >= x ==> Halved(x, k) == 0
  {
    if x >= 0 {
      forall k: nat | k >= x
        ensures Halved(x, k) == 0
      {
        HalvedBound(x, k);
      }
      assert Halved(x, x) == 0;
    } else {
      forall k: nat
        ensures Halved(x, k) < 0
      {
        HalvedSign(x, k);
      }
    }
  }

  lemma {:induction false} HalvedSign(x: int, k: nat)
    ensures Halved(x, k) < 0 <==> x < 0
  {
    if k > 0 {
      HalvedSign(x, k - 1);
    }
  }

  lemma {:induction false} HalvedBound(x: nat, k: nat)
    ensures 0 <= Halved(x, k) <= if k <= x then x - k else 0
  {
    if k > 0 {
      HalvedBound(x, k - 1);
    }
  }

  /** What the loop has come to after a number of rounds. */
  datatype Outcome = Rejected | Running | Finished(value: HeftyInteger)

  ghost predicate IsPower(result: int, y: int, x: int, n: int) {
    x >= 0 && n > 0 && result == if n == 1 && x == 0 then 1 else Pow(y, x) % n
  }

  /** The state of the loop computes the power: what is left of it is `base` to the `exp`. */
  ghost predicate Computing(result: int, base: int, exp: int, y: int, x: int, n: int) {
    && n > 0 && 0 <= exp && 0 <= x
    && Congruent(result * Pow(base, exp), Pow(y, x), n)
    && (x == 0 ==> result == 1) && exp <= x
    && (0 <= result < n || (result == 1 && (exp == 0 ==> x == 0)))
  }

  lemma ComputingStarts(base: int, y: int, x: nat, n: int)
    requires n > 0 && base == y % n
    ensures Computing(1, base, x, y, x, n)
  {
    RemainderIsCongruent(y, n);
    CongruentPower(base, y, x, n);
  }

  lemma ComputingStep(r: int, b: int, e: int, y: int, x: int, n: int, r': int, b': int)
    requires Computing(r, b, e, y, x, n) && e > 0
    requires r' == (if e % 2 == 1 then r * b % n else r) && b' == b * b % n
    ensures Computing(r', b', e / 2, y, x, n)
  {
    RemainderIsCongruent(r * b, n);
    RoundKeeps(r, b, e, n, r', b');
    CongruentTrans(r' * Pow(b', e / 2), r * Pow(b, e), Pow(y, x), n);
  }

  lemma ComputingEnds(r: int, b: int, y: int, x: int, n: int)
    requires Computing(r, b, 0, y, x, n)
    ensures IsPower(r, y, x, n)
  {
    assert r * Pow(b, 0) == r;
    ResultIsRemainder(r, Pow(y, x), n);
  }

  /** y^x modulo n in at most `rounds` rounds of the loop; Rejected is the exception for a modulus that is not
      positive. With modulus 1 and exponent 0 the loop does not run, and the result is 1 rather than 0. For a
      negative exponent it goes on after any number of rounds. */
  method ModPow(y: HeftyInteger, x: HeftyInteger, n: HeftyInteger, rounds: nat) returns (res: Outcome)
    requires y.Valid() && x.Valid() && n.Valid()
    ensures res.Rejected? <==> n.Value() <= 0
    ensures n.Value() > 0 ==> (res.Running? <==> Halved(x.Value(), rounds) != 0)
    ensures res.Finished? ==> res.value.Valid() && IsPower(res.value.Value(), y.Value(), x.Value(), n.Value())
  {
    hide Signed, Computing, IsPower, Pow, Unsigned, BitOf, Halved;
    var reduced := y.Modulo(n);
    if reduced == None {
      return Rejected;
    }
    ghost var m, yv, xv := n.Value(), y.Value(), x.Value();
    var result := HeftyInteger.Of(1);
    var base, exp := reduced.value, x;
    if xv >= 0 {
      ComputingStarts(base.Value(), yv, xv, m);
    }
    var done := exp.IsZero();
    var k := 0;
    HalvedOnce(xv, 0);
    if done {
      HalvedStays(xv, 0, rounds);
    }
    while !done && k < rounds
      invariant result.Valid() && base.Valid() && exp.Valid() && n.Valid() && n.Value() == m
      invariant k <= rounds && exp.Value() == Halved(xv, k) && (done <==> exp.Value() == 0)
      invariant done ==> Halved(xv, rounds) == 0
      invariant xv >= 0 ==> Computing(result.Value(), base.Value(), exp.Value(), yv, xv, m)
      decreases rounds - k
    {
      ghost var r, b, e := result.Value(), base.Value(), exp.Value();
      HalvedSign(xv, k);
      if xv >= 0 {
        LowestBit(exp);
      }
      var bit := exp.GetBit(0);
      if bit.value {
        var product := result.Multiply(base);
        var remainder := product.Modulo(n);
        result := remainder.value;
      }
      var half := exp.RightShift(1);
      var square := base.Multiply(base);
      var next := square.Modulo(n);
      exp, base := half.value, next.value;
      HalfIs(e);
      HalvedOnce(xv, k);
      if xv >= 0 {
        ComputingStep(r, b, e, yv, xv, m, result.Value(), base.Value());
      }
      done := exp.IsZero();
      k := k + 1;
      if done {
        HalvedStays(xv, k, rounds);
      }
    }
    if !done {
      return Running;
    }
    HalvedSign(xv, k);
    ComputingEnds(result.Value(), base.Value(), yv, xv, m);
    result := result.Prune();
    res := Finished(result);
  }

  lemma HalvedOnce(x: int, k: nat)
    ensures Halved(x, 0) == x && Halved(x, k + 1) == Halved(x, k) / 2
  {
  }

  lemma HalfIs(e: int)
    ensures e / Pow(2, 1) == e / 2
  {
    assert Pow(2, 0) == 1 && Pow(2, 1) == 2 * Pow(2, 0);
  }

  lemma {:induction false} HalvedStays(x: int, k: nat, rounds: nat)
    requires Halved(x, k) == 0 && k <= rounds
    ensures Halved(x, rounds) == 0
  {
    if k < rounds {
      HalvedStays(x, k, rounds - 1);
    }
  }

  lemma ResultIsRemainder(r: int, goal: int, m: int)
    requires m > 0 && Congruent(r, goal, m)
    ensures 0 <= r < m ==> r == goal % m
  {
    if 0 <= r < m {
      DivUnique(r, m, 0, r);
    }
  }
}
