/** What byte sequences mean: unsigned and two's-complement numbers, most significant byte first. */
module Numerals {
  import opened Bytes

  function Pow(b: int, e: nat): (p: int)
    ensures b > 0 ==> p > 0
  {
    if e == 0 then 1 else b * Pow(b, e - 1)
  }

  /** The weight of a byte with `n` bytes behind it. */
  function Weight(n: nat): (p: nat)
    ensures p > 0
  {
    Pow(256, n)
  }

  function Unsigned(s: seq<Byte>): (u: nat) {
    if s == [] then 0 else s[0] * Weight(|s| - 1) + Unsigned(s[1..])
  }

  predicate Negative(s: seq<Byte>) {
    |s| > 0 && s[0] >= 128
  }

  /** The value in two's complement. */
  function Signed(s: seq<Byte>): int {
    if Negative(s) then Unsigned(s) - Weight(|s|) else Unsigned(s)
  }

  lemma WeightStep(n: nat)
    ensures Weight(n + 1) == 256 * Weight(n)
  {
  }

  lemma {:induction false} PowAdd(b: nat, m: nat, n: nat)
    ensures Pow(b, m + n) == Pow(b, m) * Pow(b, n)
  {
    if m == 0 {
      assert Pow(b, 0) == 1;
    } else {
      PowAdd(b, m - 1, n);
      assert b * (Pow(b, m - 1) * Pow(b, n)) == (b * Pow(b, m - 1)) * Pow(b, n);
    }
  }

  lemma WeightAdd(m: nat, n: nat)
    ensures Weight(m + n) == Weight(m) * Weight(n)
  {
    PowAdd(256, m, n);
  }

  lemma {:induction false} UnsignedBound(s: seq<Byte>)
    ensures Unsigned(s) < Weight(|s|)
  {
    if s == [] {
      assert Weight(0) == 1;
    } else {
      UnsignedBound(s[1..]);
      WeightStep(|s| - 1);
      TimesMono(s[0], 255, Weight(|s| - 1));
    }
  }

  lemma TimesMono(a: int, b: int, w: nat)
    requires a <= b
    ensures a * w <= b * w
  {
  }

  lemma Multiples(d: int, w: int)
    requires 0 < w
    ensures 0 < d ==> w <= d * w
    ensures d < 0 ==> d * w <= -w
  {
  }

  /** A byte in front. */
  lemma UnsignedCons(b: Byte, s: seq<Byte>)
    ensures Unsigned([b] + s) == b * Weight(|s|) + Unsigned(s)
  {
    assert ([b] + s)[1..] == s;
  }

  lemma UnsignedFrom(s: seq<Byte>, i: nat)
    requires i < |s|
    ensures Unsigned(s[i..]) == s[i] * Weight(|s| - 1 - i) + Unsigned(s[i + 1..])
  {
    assert s[i..][1..] == s[i + 1..];
  }

  lemma {:induction false} UnsignedConcat(s: seq<Byte>, t: seq<Byte>)
    ensures Unsigned(s + t) == Unsigned(s) * Weight(|t|) + Unsigned(t)
  {
    if s == [] {
      assert s + t == t;
    } else {
      assert (s + t)[1..] == s[1..] + t;
      UnsignedConcat(s[1..], t);
      WeightAdd(|s| - 1, |t|);
      Distribute(s[0], Weight(|s| - 1), Unsigned(s[1..]), Weight(|t|));
    }
  }

  lemma Distribute(b: int, v: int, u: int, w: int)
    ensures (b * v + u) * w == b * (v * w) + u * w
  {
  }

  /** The first byte tells the half of the range a number is in. */
  lemma FirstByte(s: seq<Byte>)
    requires s != []
    ensures Weight(|s|) == 256 * Weight(|s| - 1)
    ensures Negative(s) <==> Unsigned(s) >= 128 * Weight(|s| - 1)
  {
    hide Weight;
    UnsignedBound(s[1..]);
    WeightStep(|s| - 1);
    if s[0] >= 128 {
      TimesMono(128, s[0], Weight(|s| - 1));
    } else {
      TimesMono(s[0], 127, Weight(|s| - 1));
    }
  }

  lemma SignedRange(s: seq<Byte>)
    requires s != []
    ensures -128 * Weight(|s| - 1) <= Signed(s) < 128 * Weight(|s| - 1)
    ensures Signed(s) < 0 <==> Negative(s)
  {
    hide Weight, Unsigned;
    FirstByte(s);
    UnsignedBound(s);
  }

  /** A number that fits is determined by its remainder. */
  lemma SignedUnique(s: seq<Byte>, v: int, k: int)
    requires s != [] && Unsigned(s) == v + k * Weight(|s|)
    requires -128 * Weight(|s| - 1) <= v < 128 * Weight(|s| - 1)
    ensures Signed(s) == v
  {
    hide Weight, Unsigned, Negative;
    SignedRange(s);
    FirstByte(s);
    var w := Weight(|s|);
    var d := if Negative(s) then k - 1 else k;
    TimesMinusOne(k, w);
    assert Signed(s) - v == d * w;
    Multiples(d, w);
  }

  lemma TimesMinusOne(k: int, w: int)
    ensures (k - 1) * w == k * w - w
  {
  }

  /** Sign extension by one byte keeps the value. */
  lemma SignExtend(s: seq<Byte>)
    requires s != []
    ensures Signed([if Negative(s) then 255 else 0] + s) == Signed(s)
  {
    UnsignedCons(if Negative(s) then 255 else 0, s);
    WeightStep(|s|);
  }

  lemma {:induction false} SignExtendBy(s: seq<Byte>, pad: seq<Byte>)
    requires s != [] && forall i :: 0 <= i < |pad| ==> pad[i] == if Negative(s) then 255 else 0
    ensures Signed(pad + s) == Signed(s)
    ensures Negative(pad + s) <==> Negative(s)
  {
    if pad == [] {
      assert pad + s == s;
    } else {
      SignExtendBy(s, pad[1..]);
      assert pad + s == [pad[0]] + (pad[1..] + s);
      SignExtend(pad[1..] + s);
    }
  }

  // ----- division and single bits -----

  lemma DivUnique(x: int, d: int, q: int, r: int)
    requires 0 < d && x == q * d + r && 0 <= r < d
    ensures x / d == q && x % d == r
  {
    assert (x / d - q) * d == r - x % d;
    Multiples(x / d - q, d);
  }

  /** Dividing in two steps. */
  lemma DivDiv(x: int, a: int, b: int)
    requires 0 < a && 0 < b
    ensures 0 < a * b && x / (a * b) == x / a / b
  {
    var q, r := x / a, x % a;
    var q', r' := q / b, q % b;
    assert x == (q' * b + r') * a + r;
    assert (q' * b + r') * a == q' * (a * b) + r' * a;
    TimesMono(r' + 1, b, a);
    assert (r' + 1) * a == r' * a + a && b * a == a * b;
    assert 0 <= r' * a;
    DivUnique(x, a * b, q', r' * a + r);
  }

  /** A multiple of the divisor comes out of the division. */
  lemma DivPlusMultiple(x: int, k: int, d: int)
    requires 0 < d
    ensures (x + k * d) / d == x / d + k && (x + k * d) % d == x % d
  {
    assert x + k * d == (x / d + k) * d + x % d;
    DivUnique(x + k * d, d, x / d + k, x % d);
  }

  function BitOf(u: nat, i: nat): (b: nat)
    ensures b <= 1
  {
    u / Pow(2, i) % 2
  }

  lemma PowersOfTwo(k: nat)
    requires k <= 8
    ensures Pow(2, k) * Pow(2, 8 - k) == 256
    ensures 1 <= Pow(2, k) <= 256 && (k < 8 ==> Pow(2, k) <= 128)
    ensures k > 0 ==> Pow(2, k) == 2 * Pow(2, k - 1)
  {
    assert Pow(2, 0) == 1 && Pow(2, 1) == 2 && Pow(2, 2) == 4 && Pow(2, 3) == 8;
    assert Pow(2, 4) == 16 && Pow(2, 5) == 32;
    assert Pow(2, 6) == 64 && Pow(2, 7) == 128;
    assert Pow(2, 8) == 256;
  }

  /** A shift by whole bytes and a shift within a byte. */
  lemma {:induction false} ShiftWeight(m: nat, k: nat)
    ensures Pow(2, 8 * m + k) == Weight(m) * Pow(2, k)
  {
    if m == 0 {
      assert Weight(0) == 1;
    } else {
      ShiftWeight(m - 1, k);
      PowersOfTwo(8);
      PowAdd(2, 8, 8 * (m - 1) + k);
      WeightStep(m - 1);
      assert 256 * (Weight(m - 1) * Pow(2, k)) == (256 * Weight(m - 1)) * Pow(2, k);
    }
  }

  /** The bytes behind position `|s| - m` are cut off by dividing. */
  lemma DropBytes(s: seq<Byte>, m: nat)
    requires m <= |s|
    ensures Unsigned(s) / Weight(m) == Unsigned(s[..|s| - m])
  {
    var hi, lo := s[..|s| - m], s[|s| - m..];
    assert s == hi + lo;
    UnsignedConcat(hi, lo);
    UnsignedBound(lo);
    DivUnique(Unsigned(s), Weight(m), Unsigned(hi), Unsigned(lo));
  }

  lemma UnsignedSnoc(s: seq<Byte>, b: Byte)
    ensures Unsigned(s + [b]) == 256 * Unsigned(s) + b
  {
    UnsignedConcat(s, [b]);
    UnsignedCons(b, []);
    assert [b] == [b] + [];
    assert Weight(1) == 256 * Weight(0) && Weight(0) == 1;
  }

  /** Bit `i` of a number is bit `i % 8` of its byte `i / 8` from the end. */
  lemma ByteOfBit(s: seq<Byte>, i: nat)
    requires i / 8 < |s|
    ensures BitOf(Unsigned(s), i) == BitOf(s[|s| - 1 - i / 8], i % 8)
  {
    var m, k := i / 8, i % 8;
    var b, hi := s[|s| - 1 - m], s[..|s| - 1 - m];
    hide Unsigned, Weight;
    ShiftWeight(m, k);
    DivDiv(Unsigned(s), Weight(m), Pow(2, k));
    DropBytes(s, m);
    assert s[..|s| - m] == hi + [b];
    UnsignedSnoc(hi, b);
    PowersOfTwo(k);
    PowersOfTwo(8 - k);
    BitOfLow(Unsigned(hi), b, k);
  }

  /** Bits below 256 do not depend on what is above. */
  lemma BitOfLow(hi: nat, b: Byte, k: nat)
    requires k < 8
    ensures BitOf(256 * hi + b, k) == BitOf(b, k)
  {
    hide Pow;
    PowersOfTwo(k);
    PowersOfTwo(8 - k);
    LowBits(hi, b, Pow(2, k), Pow(2, 8 - k - 1));
  }

  lemma LowBits(hi: nat, b: nat, p: nat, q: nat)
    requires 0 < p && p * (2 * q) == 256
    ensures (256 * hi + b) / p % 2 == b / p % 2
  {
    var m := q * hi;
    calc {
      256 * hi;
      p * (2 * q) * hi;
      p * (2 * m);
      (2 * m) * p;
    }
    DivPlusMultiple(b, 2 * m, p);
  }

  // ----- bitwise operations -----

  function Or(x: nat, y: nat): nat {
    if x == 0 && y == 0 then 0 else 2 * Or(x / 2, y / 2) + if x % 2 == 1 || y % 2 == 1 then 1 else 0
  }

  function And(x: nat, y: nat): nat {
    if x == 0 || y == 0 then 0 else 2 * And(x / 2, y / 2) + if x % 2 == 1 && y % 2 == 1 then 1 else 0
  }

  lemma {:induction false} OrZero(y: nat)
    ensures Or(0, y) == y
  {
    if y > 0 {
      OrZero(y / 2);
    }
  }

  /** Bits that do not overlap are added. */
  lemma {:induction false} OrDisjoint(x: nat, y: nat, m: nat, k: nat)
    requires x < Pow(2, k) && y == m * Pow(2, k)
    ensures Or(x, y) == x + y
  {
    if k == 0 {
      assert Pow(2, 0) == 1;
      OrZero(y);
    } else {
      HalfMultiple(y, m, k);
      OrDisjoint(x / 2, y / 2, m, k - 1);
    }
  }

  lemma {:induction false} OrSymmetric(x: nat, y: nat)
    ensures Or(x, y) == Or(y, x)
  {
    if x != 0 || y != 0 {
      OrSymmetric(x / 2, y / 2);
    }
  }

  lemma {:induction false} OrBound(x: nat, y: nat, w: nat)
    requires x < Pow(2, w) && y < Pow(2, w)
    ensures Or(x, y) < Pow(2, w)
  {
    if w == 0 {
      assert Pow(2, 0) == 1;
    } else {
      OrBound(x / 2, y / 2, w - 1);
    }
  }

  lemma {:induction false} AndBound(x: nat, y: nat)
    ensures And(x, y) <= x
  {
    if x != 0 && y != 0 {
      AndBound(x / 2, y / 2);
    }
  }

  lemma HalfMultiple(y: nat, m: nat, k: nat)
    requires k > 0 && y == m * Pow(2, k)
    ensures y % 2 == 0 && y / 2 == m * Pow(2, k - 1)
  {
    assert y == 2 * (m * Pow(2, k - 1));
  }

  lemma BitOfHalf(x: nat, k: nat)
    requires k > 0
    ensures BitOf(x, k) == BitOf(x / 2, k - 1)
  {
    DivDiv(x, 2, Pow(2, k - 1));
  }

  /** Setting bit `k`. */
  lemma {:induction false} OrBit(x: nat, k: nat)
    ensures Or(x, Pow(2, k)) == x + (1 - BitOf(x, k)) * Pow(2, k)
  {
    if k == 0 {
      assert Pow(2, 0) == 1;
      OrZero(x / 2);
      OrSymmetric(0, x / 2);
    } else {
      assert Pow(2, k) == 1 * Pow(2, k);
      HalfMultiple(Pow(2, k), 1, k);
      BitOfHalf(x, k);
      OrBit(x / 2, k - 1);
      assert (1 - BitOf(x, k)) * Pow(2, k) == 2 * ((1 - BitOf(x, k)) * Pow(2, k - 1));
    }
  }

  lemma {:induction false} AndOnes(x: nat, w: nat)
    requires x < Pow(2, w)
    ensures And(x, Pow(2, w) - 1) == x
  {
    if w > 0 {
      assert (Pow(2, w) - 1) / 2 == Pow(2, w - 1) - 1 && (Pow(2, w) - 1) % 2 == 1;
      AndOnes(x / 2, w - 1);
    }
  }

  lemma {:induction false} PowMono(k: nat, w: nat)
    requires k < w
    ensures Pow(2, k) < Pow(2, w)
  {
    if k < w - 1 {
      PowMono(k, w - 1);
    }
  }

  /** The mask of `w` ones but for a zero at bit `k`, and what is left of it after a shift. */
  lemma MaskHalf(k: nat, w: nat)
    requires k < w
    ensures Pow(2, k) < Pow(2, w)
    ensures var mask := Pow(2, w) - 1 - Pow(2, k);
            && mask % 2 == (if k == 0 then 0 else 1)
            && mask / 2 == if k == 0 then Pow(2, w - 1) - 1 else Pow(2, w - 1) - 1 - Pow(2, k - 1)
  {
    PowMono(k, w);
    if k == 0 {
      assert Pow(2, 0) == 1;
    }
  }

  /** A bit's weight in a number and in its half. */
  lemma BitWeight(x: nat, k: nat, w: nat)
    requires x < Pow(2, w) && k < w
    ensures x / 2 < Pow(2, w - 1)
    ensures BitOf(x, k) * Pow(2, k) == if k == 0 then x % 2 else 2 * (BitOf(x / 2, k - 1) * Pow(2, k - 1))
  {
    if k == 0 {
      assert Pow(2, 0) == 1;
    } else {
      BitOfHalf(x, k);
    }
  }

  /** Clearing bit `k` of a number of `w` bits. */
  lemma {:induction false} AndNotBit(x: nat, k: nat, w: nat)
    requires x < Pow(2, w) && k < w
    ensures Pow(2, k) < Pow(2, w) && And(x, Pow(2, w) - 1 - Pow(2, k)) == x - BitOf(x, k) * Pow(2, k)
  {
    hide Pow, And, BitOf;
    MaskHalf(k, w);
    BitWeight(x, k, w);
    AndStep(x, Pow(2, w) - 1 - Pow(2, k));
    if k == 0 {
      AndOnes(x / 2, w - 1);
    } else {
      AndNotBit(x / 2, k - 1, w - 1);
    }
  }

  lemma AndStep(x: nat, y: nat)
    ensures And(x, y) == 2 * And(x / 2, y / 2) + if x % 2 == 1 && y % 2 == 1 then 1 else 0
  {
  }

  /** One changed byte changes the number by its difference times its weight. */
  lemma UnsignedUpdate(s: seq<Byte>, j: nat, b: Byte)
    requires j < |s|
    ensures Unsigned(s[j := b]) == Unsigned(s) + (b - s[j]) * Weight(|s| - 1 - j)
  {
    hide Unsigned, Weight;
    var t := s[j := b];
    assert s == s[..j] + s[j..] && t == s[..j] + t[j..];
    UnsignedConcat(s[..j], s[j..]);
    UnsignedConcat(s[..j], t[j..]);
    UnsignedFrom(s, j);
    UnsignedFrom(t, j);
    assert s[j + 1..] == t[j + 1..];
    assert (b - s[j]) * Weight(|s| - 1 - j) == b * Weight(|s| - 1 - j) - s[j] * Weight(|s| - 1 - j);
  }
}
