/** Why the digit-by-digit algorithms of the big integers compute what they should. */
module DigitProofs {
  import opened Bytes
  import opened Numerals

  /** `n` bytes are enough for `v`. */
  ghost predicate Fits(v: int, n: nat)
    requires n > 0
  {
    -128 * Weight(n - 1) <= v < 128 * Weight(n - 1)
  }

  // ----- addition -----

  /** One byte of a sum. */
  lemma AddStep(w: nat, x: int, y: int, c: int, r: int, c': int, ux: int, uy: int, ur: int)
    requires ur + c * w == ux + uy && r + 256 * c' == x + y + c
    ensures (r * w + ur) + c' * (256 * w) == (x * w + ux) + (y * w + uy)
  {
    assert (r + 256 * c') * w == r * w + c' * (256 * w);
    assert (x + y + c) * w == x * w + y * w + c * w;
  }

  /** The rows of digits added so far, from position `i` on. */
  ghost predicate IsPartialSum(a: seq<Byte>, b: seq<Byte>, res: seq<Byte>, i: nat, carry: int) {
    && |a| == |b| == |res| && i <= |a| && 0 <= carry <= 1
    && Unsigned(res[i..]) + carry * Weight(|a| - i) == Unsigned(a[i..]) + Unsigned(b[i..])
  }

  lemma PartialSumStep(a: seq<Byte>, b: seq<Byte>, res: seq<Byte>, i: nat, carry: int, r: Byte, carry': int)
    requires 0 < i <= |a| && IsPartialSum(a, b, res, i, carry)
    requires r + 256 * carry' == a[i - 1] + b[i - 1] + carry
    ensures IsPartialSum(a, b, res[i - 1 := r], i - 1, carry')
  {
    var res' := res[i - 1 := r];
    UnsignedFrom(a, i - 1);
    UnsignedFrom(b, i - 1);
    UnsignedFrom(res', i - 1);
    assert res'[i..] == res[i..];
    WeightStep(|a| - i);
    AddStep(Weight(|a| - i), a[i - 1], b[i - 1], carry, r, carry', Unsigned(a[i..]), Unsigned(b[i..]), Unsigned(res[i..]));
  }

  /** When the sum of two numbers of the same length fits that length, and what extends it if not. */
  lemma SumExtends(a: seq<Byte>, b: seq<Byte>, res: seq<Byte>, carry: int)
    requires a != [] && IsPartialSum(a, b, res, 0, carry)
    ensures !Negative(a) && !Negative(b) ==>
              carry == 0 && Signed(if Negative(res) then [0] + res else res) == Signed(a) + Signed(b)
    ensures Negative(a) && Negative(b) ==>
              Signed(if Negative(res) then res else [255] + res) == Signed(a) + Signed(b)
    ensures Negative(a) != Negative(b) ==> Signed(res) == Signed(a) + Signed(b)
    ensures Fits(Signed(a) + Signed(b), |a|) <==> Negative(a) != Negative(b) || Negative(a) == Negative(res)
  {
    hide Weight, Unsigned;
    assert a[0..] == a && b[0..] == b && res[0..] == res;
    FirstByte(a);
    FirstByte(b);
    SignedRange(a);
    SignedRange(b);
    SignedRange(res);
    FirstByte(res);
    UnsignedBound(res);
    UnsignedBound(a);
    UnsignedBound(b);
    UnsignedCons(0, res);
    UnsignedCons(255, res);
    WeightStep(|res|);
    if Negative(a) != Negative(b) {
      SignedUnique(res, Signed(a) + Signed(b), 1 - carry);
    }
  }

  // ----- negation -----

  ghost predicate IsComplement(s: seq<Byte>, t: seq<Byte>) {
    |s| == |t| && forall i :: 0 <= i < |s| ==> t[i] == 255 - s[i]
  }

  lemma {:induction false} ComplementUnsigned(s: seq<Byte>, t: seq<Byte>)
    requires IsComplement(s, t)
    ensures Unsigned(t) == Weight(|s|) - 1 - Unsigned(s)
  {
    if s == [] {
      assert Weight(0) == 1;
    } else {
      ComplementUnsigned(s[1..], t[1..]);
      WeightStep(|s| - 1);
      var w := Weight(|s| - 1);
      assert (255 - s[0]) * w == 255 * w - s[0] * w;
    }
  }

  /** Flipping all bits gives the negative, less one. */
  lemma Complement(s: seq<Byte>, t: seq<Byte>)
    requires s != [] && IsComplement(s, t)
    ensures Signed(t) == -1 - Signed(s) && (Negative(t) <==> !Negative(s))
  {
    ComplementUnsigned(s, t);
  }

  // ----- shifts within a byte -----

  ghost predicate IsPartialShift(s: seq<Byte>, out: seq<Byte>, i: nat, k: nat, overflow: int) {
    && |s| == |out| && i <= |s| && 0 <= overflow < Pow(2, k)
    && Unsigned(out[i..]) + overflow * Weight(|s| - i) == Unsigned(s[i..]) * Pow(2, k)
  }

  lemma ShiftStep(w: int, x: int, p: int, c: int, r: int, c': int, ux: int, ur: int)
    requires ur + c * w == ux * p && r + 256 * c' == x * p + c
    ensures (r * w + ur) + c' * (256 * w) == (x * w + ux) * p
  {
    assert (r + 256 * c') * w == r * w + c' * (256 * w);
    assert (x * p + c) * w == (x * w) * p + c * w;
    assert (x * w + ux) * p == (x * w) * p + ux * p;
  }

  lemma PartialShiftStep(s: seq<Byte>, out: seq<Byte>, i: nat, k: nat, overflow: int, r: Byte, overflow': int)
    requires 0 < i <= |s| && k < 8 && IsPartialShift(s, out, i, k, overflow)
    requires r + 256 * overflow' == s[i - 1] * Pow(2, k) + overflow
    ensures IsPartialShift(s, out[i - 1 := r], i - 1, k, overflow')
  {
    hide Pow, Weight, Unsigned;
    var out', p := out[i - 1 := r], Pow(2, k);
    UnsignedFrom(s, i - 1);
    UnsignedFrom(out', i - 1);
    assert out'[i..] == out[i..];
    WeightStep(|s| - i);
    ShiftStep(Weight(|s| - i), s[i - 1], p, overflow, r, overflow', Unsigned(s[i..]), Unsigned(out[i..]));
    TimesMono(s[i - 1], 255, p);
    assert 0 <= s[i - 1] * p;
  }

  /** What the bits pushed out at the front and the sign make of a shifted number. */
  lemma ShiftExtends(s: seq<Byte>, out: seq<Byte>, k: nat, overflow: int)
    requires s != [] && k < 8 && IsPartialShift(s, out, 0, k, overflow)
    ensures 0 <= overflow < 128
    ensures !Negative(s) ==>
              Signed(if overflow != 0 then [overflow] + out else if Negative(out) then [0] + out else out) == Signed(s) * Pow(2, k)
    ensures Negative(s) && overflow == 0 ==> Negative(out) && Signed(out) == Signed(s) * Pow(2, k)
    ensures Negative(s) && overflow != 0 ==>
              0 <= overflow + 256 - Pow(2, k) < 256 && Signed([overflow + 256 - Pow(2, k)] + out) == Signed(s) * Pow(2, k)
  {
    hide Pow, Weight, Signed, IsPartialShift;
    PowersOfTwo(k);
    OverflowRange(s, out, k, overflow);
    if Negative(s) {
      NegativeShifted(s, out, k, overflow);
    } else {
      PositiveShifted(s, out, k, overflow);
    }
  }

  lemma OverflowRange(s: seq<Byte>, out: seq<Byte>, k: nat, overflow: int)
    requires s != [] && IsPartialShift(s, out, 0, k, overflow)
    ensures |out| == |s| && 0 <= overflow < Pow(2, k)
    ensures Unsigned(out) + overflow * Weight(|s|) == Unsigned(s) * Pow(2, k)
  {
    assert s[0..] == s && out[0..] == out;
  }

  lemma PositiveShifted(s: seq<Byte>, out: seq<Byte>, k: nat, overflow: int)
    requires s != [] && k < 8 && !Negative(s) && IsPartialShift(s, out, 0, k, overflow) && 0 <= overflow < 128
    ensures Signed(if overflow != 0 then [overflow] + out else if Negative(out) then [0] + out else out) == Signed(s) * Pow(2, k)
  {
    hide Weight, Unsigned, Pow, IsPartialShift;
    OverflowRange(s, out, k, overflow);
    UnsignedCons(overflow, out);
  }

  lemma NegativeShifted(s: seq<Byte>, out: seq<Byte>, k: nat, overflow: int)
    requires s != [] && k < 8 && Negative(s) && IsPartialShift(s, out, 0, k, overflow) && 0 <= overflow < 128
    ensures overflow == 0 ==> Negative(out) && Signed(out) == Signed(s) * Pow(2, k)
    ensures overflow != 0 ==>
              0 <= overflow + 256 - Pow(2, k) < 256 && Signed([overflow + 256 - Pow(2, k)] + out) == Signed(s) * Pow(2, k)
  {
    hide Weight, Unsigned, Pow, IsPartialShift;
    var p, w := Pow(2, k), Weight(|s|);
    PowersOfTwo(k);
    OverflowRange(s, out, k, overflow);
    NegativeOverflows(s, out, k, overflow);
    if overflow == 0 {
      FirstByte(s);
      FirstByte(out);
    } else {
      NegativeValue(Unsigned(s), Unsigned(out), overflow, p, w);
      UnsignedCons(overflow + 256 - p, out);
      WeightStep(|s|);
    }
  }

  lemma NegativeValue(us: int, uo: int, overflow: int, p: int, w: int)
    requires uo + overflow * w == us * p
    ensures (overflow + 256 - p) * w + uo - 256 * w == (us - w) * p
  {
    assert (overflow + 256 - p) * w == overflow * w + 256 * w - p * w;
    assert (us - w) * p == us * p - w * p;
  }

  lemma PositiveFactor(a: int, w: int)
    requires 0 < a * w && 0 < w
    ensures 0 < a
  {
  }

  lemma OverflowPositive(u: nat, o: nat, w: nat, p: nat, overflow: int)
    requires o + overflow * w == u * p && o < w <= 2 * u && 2 <= p
    ensures 0 < overflow
  {
    TimesMono(2, p, u);
    PositiveFactor(overflow, w);
  }

  lemma NegativeOverflows(s: seq<Byte>, out: seq<Byte>, k: nat, overflow: int)
    requires s != [] && k < 8 && Negative(s) && IsPartialShift(s, out, 0, k, overflow)
    ensures k == 0 ==> overflow == 0 && Unsigned(out) == Unsigned(s) && Pow(2, k) == 1
    ensures k > 0 ==> overflow > 0
  {
    assert s[0..] == s && out[0..] == out;
    if k == 0 {
      assert Pow(2, 0) == 1;
    } else {
      hide Weight, Unsigned, Pow;
      FirstByte(s);
      UnsignedBound(out);
      PowersOfTwo(k);
      PowersOfTwo(k - 1);
      OverflowPositive(Unsigned(s), Unsigned(out), Weight(|s|), Pow(2, k), overflow);
    }
  }

  lemma {:induction false} AppendZeros(s: seq<Byte>, zeros: seq<Byte>)
    requires s != [] && forall i :: 0 <= i < |zeros| ==> zeros[i] == 0
    ensures Signed(s + zeros) == Signed(s) * Weight(|zeros|)
  {
    hide Weight, Unsigned;
    UnsignedConcat(s, zeros);
    ZerosUnsigned(zeros);
    WeightAdd(|s|, |zeros|);
    assert (Unsigned(s) - Weight(|s|)) * Weight(|zeros|) == Unsigned(s) * Weight(|zeros|) - Weight(|s|) * Weight(|zeros|);
  }

  lemma {:induction false} ZerosUnsigned(zeros: seq<Byte>)
    requires forall i :: 0 <= i < |zeros| ==> zeros[i] == 0
    ensures Unsigned(zeros) == 0
  {
    if zeros != [] {
      ZerosUnsigned(zeros[1..]);
    }
  }

  // ----- multiplication and division bit by bit -----

  /** The lowest bits of a number, one more at a time. */
  lemma LowBitsGrow(y: nat, i: nat)
    ensures y % Pow(2, i + 1) == y % Pow(2, i) + BitOf(y, i) * Pow(2, i)
  {
    var p := Pow(2, i);
    var q, r := y / p, y % p;
    assert y == (q / 2) * (2 * p) + (q % 2 * p + r) by {
      assert q * p == (q / 2) * (2 * p) + q % 2 * p;
    }
    assert q % 2 * p + r < 2 * p;
    DivUnique(y, 2 * p, q / 2, q % 2 * p + r);
  }

  lemma BitIsBit(x: nat, i: nat)
    ensures 0 <= BitOf(x, i) <= 1
  {
  }

  /** One step of grade school multiplication. */
  lemma ProductStep(x: int, y: nat, i: nat)
    ensures x * (y % Pow(2, i + 1)) == x * (y % Pow(2, i)) + if BitOf(y, i) == 1 then x * Pow(2, i) else 0
  {
    LowBitsGrow(y, i);
    var p, m := Pow(2, i), y % Pow(2, i);
    assert x * (m + BitOf(y, i) * p) == x * m + x * (BitOf(y, i) * p);
  }

  /** All bits of a nonnegative number are in its bytes. */
  lemma AllBits(s: seq<Byte>)
    requires s != [] && !Negative(s)
    ensures Unsigned(s) == Signed(s) && Unsigned(s) % Pow(2, 8 * |s|) == Signed(s)
    ensures Unsigned(s) / Pow(2, 8 * |s|) == 0
  {
    hide Unsigned, Weight;
    UnsignedBound(s);
    ShiftWeight(|s|, 0);
    assert Pow(2, 0) == 1;
    hide Pow;
    DivUnique(Unsigned(s), Pow(2, 8 * |s|), 0, Unsigned(s));
  }

  /** Long division after the bits of `dividend` down to position `k`. */
  ghost predicate IsPartialDivision(dividend: nat, divisor: nat, quotient: int, remainder: int, k: nat) {
    exists q: nat :: quotient == q * Pow(2, k) && dividend / Pow(2, k) == q * divisor + remainder && 0 <= remainder < divisor
  }

  lemma DivisionStarts(dividend: nat, divisor: nat, k: nat)
    requires dividend / Pow(2, k) == 0 && 0 < divisor
    ensures IsPartialDivision(dividend, divisor, 0, 0, k)
  {
    assert 0 == 0 * Pow(2, k);
  }

  /** The next bit of the dividend goes into the remainder; if the divisor fits, the quotient gets a bit. */
  lemma DivisionStep(dividend: nat, divisor: nat, quotient: nat, remainder: int, k: nat)
    requires k > 0 && IsPartialDivision(dividend, divisor, quotient, remainder, k)
    ensures BitOf(quotient, k - 1) == 0
    ensures var r := 2 * remainder + BitOf(dividend, k - 1);
            if r - divisor >= 0 then IsPartialDivision(dividend, divisor, quotient + Pow(2, k - 1), r - divisor, k - 1)
            else IsPartialDivision(dividend, divisor, quotient, r, k - 1)
  {
    var q: nat :| quotient == q * Pow(2, k) && dividend / Pow(2, k) == q * divisor + remainder && 0 <= remainder < divisor;
    var p, r := Pow(2, k - 1), 2 * remainder + BitOf(dividend, k - 1);
    NextBit(dividend, k - 1);
    assert Pow(2, k) == 2 * p;
    DoubledProducts(q, divisor, p);
    hide BitOf;
    DivUnique(quotient, p, 2 * q, 0);
    assert BitOf(quotient, k - 1) == 2 * q % 2 by {
      BitOfDefinition(quotient, k - 1);
    }
    assert dividend / p == (2 * q) * divisor + r;
  }

  lemma BitOfDefinition(x: nat, i: nat)
    ensures BitOf(x, i) == x / Pow(2, i) % 2
  {
  }

  lemma DoubledProducts(q: int, d: int, p: int)
    ensures q * (2 * p) == (2 * q) * p && (2 * q + 1) * p == (2 * q) * p + p
    ensures 2 * (q * d) == (2 * q) * d && (2 * q + 1) * d == (2 * q) * d + d
  {
  }

  lemma NextBit(x: nat, i: nat)
    ensures x / Pow(2, i) == 2 * (x / Pow(2, i + 1)) + BitOf(x, i)
  {
    var p := Pow(2, i);
    DivDiv(x, p, 2);
    assert p * 2 == Pow(2, i + 1);
  }

  lemma DivisionEnds(dividend: nat, divisor: nat, quotient: int, remainder: int)
    requires IsPartialDivision(dividend, divisor, quotient, remainder, 0)
    ensures quotient == dividend / divisor && remainder == dividend % divisor
  {
    assert Pow(2, 0) == 1;
    DivUnique(dividend, divisor, quotient, remainder);
  }

  lemma TimesThree(a: int, b: int, c: int)
    ensures a * b * c == a * (c * b)
  {
  }

  /** The mask with ones from bit `k` up sets the bits above a number below 2^k. */
  lemma OrMask(x: nat, k: nat)
    requires k < 8 && x < Pow(2, k)
    ensures 0 < 256 - Pow(2, k) && Or(x, 256 - Pow(2, k)) == x + 256 - Pow(2, k)
  {
    PowersOfTwo(k);
    var m := Pow(2, 8 - k) - 1;
    assert m * Pow(2, k) == 256 - Pow(2, k) by {
      TimesMinusOne(Pow(2, 8 - k), Pow(2, k));
    }
    PowersOfTwo(8 - k);
    OrDisjoint(x, 256 - Pow(2, k), m, k);
  }

  lemma ProductStarts(x: int, u: nat)
    ensures 0 == x * (u % Pow(2, 0))
  {
    assert Pow(2, 0) == 1;
  }

  function Abs(x: int): int {
    if x < 0 then -x else x
  }

  lemma SignsOfProduct(x: int, y: int)
    ensures x * y == y * x == if (x < 0) == (y < 0) then Abs(x) * Abs(y) else -(Abs(x) * Abs(y))
  {
  }

  lemma MaskedByte(b: Byte, k: nat)
    requires k < 8
    ensures 0 < Pow(2, k) <= 128
    ensures Or(b, Pow(2, k)) == b + (1 - BitOf(b, k)) * Pow(2, k) < 256
    ensures And(b, 255 - Pow(2, k)) == b - BitOf(b, k) * Pow(2, k) < 256
  {
    hide BitOf;
    assert Pow(2, 8) == 256 by {
      PowersOfTwo(8);
    }
    PowersOfTwo(k);
    OrBit(b, k);
    AndNotBit(b, k, 8);
    OrBound(b, Pow(2, k), 8);
    AndBound(b, 255 - Pow(2, k));
  }

  /** A byte with bit `k` set by or cleared through a mask. */
  function WithBit(b: Byte, k: nat, bit: bool): (c: Byte)
    requires k < 8
    ensures c == b + ((if bit then 1 else 0) - BitOf(b, k)) * Pow(2, k)
  {
    MaskedByte(b, k);
    if bit then Or(b, Pow(2, k)) else And(b, 255 - Pow(2, k))
  }

  /** Changing a bit in its byte changes the number by the weight of the bit. */
  lemma ChangedBit(s: seq<Byte>, i: nat, bit: bool)
    requires i / 8 < |s|
    ensures Unsigned(s[|s| - 1 - i / 8 := WithBit(s[|s| - 1 - i / 8], i % 8, bit)])
         == Unsigned(s) + ((if bit then 1 else 0) - BitOf(Unsigned(s), i)) * Pow(2, i)
  {
    hide Unsigned, Weight, BitOf, WithBit;
    var m, k := i / 8, i % 8;
    var b, p := s[|s| - 1 - m], Pow(2, k);
    UnsignedUpdate(s, |s| - 1 - m, WithBit(b, k, bit));
    ByteOfBit(s, i);
    ShiftWeight(m, k);
    TimesThree((if bit then 1 else 0) - BitOf(b, k), p, Weight(m));
  }

  // ----- lengths, pruning and equality -----

  /** The smallest number of bytes for an unsigned number. */
  function MinLength(u: nat): nat {
    if u == 0 then 0 else 1 + MinLength(u / 256)
  }

  /** The magnitude leaves the first byte unused, or the number is the least of its length. */
  ghost predicate HasSpareByte(s: seq<Byte>)
    requires s != []
  {
    Abs(Signed(s)) < Weight(|s| - 1) || Signed(s) == -128 * Weight(|s| - 1)
  }

  /** The digits 05 and 00 05 have the same value, but only the longer ones have a spare byte. */
  lemma SpareBytesDiffer()
    ensures Signed([5]) == Signed([0, 5]) == 5
    ensures !HasSpareByte([5]) && HasSpareByte([0, 5])
  {
    assert Unsigned([5]) == 5 && Unsigned([0, 5]) == 5 by {
      assert [0, 5][..1] == [0] && [5][..0] == [];
    }
    assert Weight(0) == 1 && Weight(1) == 256;
  }

  /** The number of bytes that pruning leaves. */
  ghost function PrunedLength(s: seq<Byte>): nat
    requires s != []
  {
    if Signed(s) == 0 then 1 else MinLength(Abs(Signed(s))) + if HasSpareByte(s) then 1 else 0
  }

  lemma {:induction false} MinLengthUnique(u: nat, n: nat)
    requires 0 < n && Weight(n - 1) <= u < Weight(n)
    ensures MinLength(u) == n
  {
    WeightStep(n - 1);
    if n == 1 {
      assert Weight(0) == 1;
    } else {
      WeightStep(n - 2);
      MinLengthUnique(u / 256, n - 1);
    }
  }

  /** A first byte that is not zero is needed. */
  lemma LeadingByte(s: seq<Byte>)
    requires s != []
    ensures s[0] == 0 <==> Unsigned(s) < Weight(|s| - 1)
    ensures s[0] != 0 ==> MinLength(Unsigned(s)) == |s|
  {
    hide Weight, MinLength;
    UnsignedBound(s);
    UnsignedBound(s[1..]);
    if s[0] != 0 {
      TimesMono(1, s[0], Weight(|s| - 1));
      MinLengthUnique(Unsigned(s), |s|);
    }
  }

  lemma {:induction false} LeadingZeros(s: seq<Byte>, cut: nat)
    requires cut <= |s| && forall i :: 0 <= i < cut ==> s[i] == 0
    ensures Unsigned(s[cut..]) == Unsigned(s)
  {
    if cut > 0 {
      LeadingZeros(s[1..], cut - 1);
      assert s[1..][cut - 1..] == s[cut..];
    } else {
      assert s[0..] == s;
    }
  }

  /** A nonnegative number without its zeros but one, and as long as it should be. */
  lemma PrunedPositive(s: seq<Byte>, cut: nat)
    requires s != [] && !Negative(s) && cut < |s|
    requires forall i :: 0 <= i <= cut && cut > 0 ==> s[i] == 0
    requires cut < |s| - 1 && s[cut] == 0 ==> s[cut + 1] != 0
    ensures Signed(s[cut..]) == Signed(s) && !Negative(s[cut..])
    ensures |s| - cut == PrunedLength(s)
  {
    hide Unsigned, Weight, MinLength;
    LeadingZeros(s, cut);
    var t := s[cut..];
    LeadingByte(s);
    LeadingByte(t);
    assert Signed(s) == Unsigned(s);
    SignedRange(s);
    if t[0] == 0 {
      LeadingZeros(t, 1);
      if |t| > 1 {
        LeadingByte(t[1..]);
        NotZero(t[1..]);
      } else {
        LeadingZeros(t, |t|);
        EmptyUnsigned();
        assert t[1..] == [];
      }
    } else {
      NotZero(t);
    }
  }

  lemma EmptyUnsigned()
    ensures Unsigned([]) == 0 && Weight(0) == 1
  {
  }

  lemma NotZero(s: seq<Byte>)
    requires s != [] && s[0] != 0
    ensures Unsigned(s) > 0
  {
    LeadingByte(s);
  }

  /** The least number of its length: only its first bit is set. */
  lemma LeastNumber(s: seq<Byte>)
    requires s != []
    ensures Signed(s) == -128 * Weight(|s| - 1) <==> s[0] == 128 && forall i :: 0 < i < |s| ==> s[i] == 0
  {
    FirstByte(s);
    if s[0] == 128 {
      if forall i :: 0 < i < |s| ==> s[i] == 0 {
        ZerosUnsigned(s[1..]);
      } else {
        var i :| 0 < i < |s| && s[i] != 0;
        SomeByte(s[1..], i - 1);
      }
    } else if s[0] > 128 {
      TimesMono(129, s[0], Weight(|s| - 1));
    } else {
      SignedRange(s);
    }
  }

  lemma {:induction false} SomeByte(s: seq<Byte>, i: nat)
    requires i < |s| && s[i] != 0
    ensures Unsigned(s) > 0
  {
    hide Weight;
    if i == 0 {
      NotZero(s);
    } else {
      SomeByte(s[1..], i - 1);
      TimesMono(0, s[0], Weight(|s| - 1));
    }
  }

  /** Digits of the same length with the same value are the same. */
  lemma {:induction false} DigitsUnique(s: seq<Byte>, t: seq<Byte>)
    requires |s| == |t| && Unsigned(s) == Unsigned(t)
    ensures s == t
  {
    if s != [] {
      hide Weight;
      var w := Weight(|s| - 1);
      UnsignedBound(s[1..]);
      UnsignedBound(t[1..]);
      DivUnique(Unsigned(s), w, s[0], Unsigned(s[1..]));
      DivUnique(Unsigned(t), w, t[0], Unsigned(t[1..]));
      DigitsUnique(s[1..], t[1..]);
    }
  }

  lemma SignedDigitsUnique(s: seq<Byte>, t: seq<Byte>)
    requires |s| == |t| && s != []
    ensures s == t <==> Signed(s) == Signed(t)
  {
    if Signed(s) == Signed(t) {
      SignedRange(s);
      SignedRange(t);
      DigitsUnique(s, t);
    }
  }

  lemma SignedDigits(s: seq<Byte>, t: seq<Byte>)
    requires s != [] && t != []
    ensures s == t <==> |s| == |t| && Signed(s) == Signed(t)
  {
    if |s| == |t| {
      SignedDigitsUnique(s, t);
    }
  }

  /** Whether a negation fits the length it came from. */
  lemma NegationFits(s: seq<Byte>)
    requires s != []
    ensures Fits(-Signed(s), |s|) <==> Signed(s) != -128 * Weight(|s| - 1)
    ensures Fits(-Signed(s), |s| + 1)
  {
    hide Weight, Signed;
    SignedRange(s);
    WeightStep(|s| - 1);
  }

  /** A negative number and its negation prune to the same length. */
  lemma NegationPrunes(s: seq<Byte>, t: seq<Byte>)
    requires s != [] && Signed(s) < 0 && Signed(t) == -Signed(s)
    requires |t| == |s| + if Signed(s) == -128 * Weight(|s| - 1) then 1 else 0
    ensures PrunedLength(t) == PrunedLength(s) && !Negative(t)
    ensures Signed(t) != -128 * Weight(|t| - 1)
  {
    hide Weight, Signed, MinLength;
    SignedRange(t);
    WeightStep(|s| - 1);
  }

  lemma NotLeast(s: seq<Byte>)
    requires s != [] && !Negative(s)
    ensures Signed(s) != -128 * Weight(|s| - 1)
  {
    SignedRange(s);
  }

  lemma LeastIsNegative(s: seq<Byte>)
    requires s != [] && Signed(s) == -128 * Weight(|s| - 1)
    ensures Negative(s)
  {
    SignedRange(s);
  }

  /** Twice a number has a zero as its lowest bit. */
  lemma EvenBits(s: seq<Byte>, half: int)
    requires s != [] && Signed(s) == 2 * half
    ensures BitOf(Unsigned(s), 0) == 0 && Pow(2, 0) == 1
  {
    hide Weight, Unsigned;
    FirstByte(s);
    EvenWeight(|s|);
    assert Pow(2, 0) == 1;
  }

  lemma LowestBitSet(s: seq<Byte>, t: seq<Byte>, half: int, bit: bool)
    requires s != [] && |t| == |s| && Signed(s) == 2 * half
    requires Unsigned(t) == Unsigned(s) + if bit then 1 else 0
    ensures Signed(t) == 2 * half + if bit then 1 else 0
  {
    hide Weight, Unsigned;
    FirstByte(s);
    FirstByte(t);
    SignedRange(s);
    UnsignedBound(s);
    EvenWeight(|s|);
    if bit {
      SignedUnique(t, 2 * half + 1, if Negative(s) then 1 else 0);
    }
  }

  lemma EvenWeight(n: nat)
    requires n > 0
    ensures (128 * Weight(n - 1)) % 2 == 0 && Weight(n) % 2 == 0
  {
    WeightStep(n - 1);
  }

  /** A quotient is not greater than its dividend, so it is not taken for a negative number. */
  lemma QuotientFits(s: seq<Byte>, t: seq<Byte>, u: nat, d: nat)
    requires s != [] && |t| == |s| && Signed(s) == u && 0 < d && Unsigned(t) == u / d
    ensures Signed(t) == u / d
  {
    hide Weight, Unsigned;
    SignedRange(s);
    assert u / d <= u by {
      TimesMono(1, d, u / d);
    }
    SignedUnique(t, u / d, 0);
  }

  // ----- right shifts -----

  /** `out` is `s` divided by 2^k; `overflow` is the remainder, moved to the front of the next byte. */
  ghost predicate IsShiftedRight(s: seq<Byte>, out: seq<Byte>, k: nat, overflow: int)
    requires k < 8
  {
    && |s| == |out| && s != []
    && Signed(out) == Signed(s) / Pow(2, k) && overflow == Signed(s) % Pow(2, k) * Pow(2, 8 - k)
  }

  lemma ShiftedAll(s: seq<Byte>, out: seq<Byte>, k: nat, overflow: int)
    requires k < 8 && IsShiftedRight(s, out, k, overflow)
    ensures Signed(out) == Signed(s) / Pow(2, k)
  {
  }

  lemma NoBytes()
    ensures Weight(0) == 1 && Unsigned([]) == 0
  {
  }

  lemma OneByte(b: Byte)
    ensures Signed([b]) == if b >= 128 then b - 256 else b
  {
    assert [b] == [b] + [];
    UnsignedCons(b, []);
    assert Weight(0) == 1 && Weight(1) == 256 * Weight(0);
  }

  lemma SignedSnoc(s: seq<Byte>, b: Byte)
    requires s != []
    ensures Signed(s + [b]) == 256 * Signed(s) + b
  {
    UnsignedSnoc(s, b);
    WeightStep(|s|);
  }

  lemma FirstShift(s: seq<Byte>, out: seq<Byte>, k: nat)
    requires s != [] && out != [] && k < 8
    requires out[0] == if s[0] >= 128 then (s[0] - 256) / Pow(2, k) + 256 else s[0] / Pow(2, k)
    ensures IsShiftedRight(s[..1], out[..1], k, s[0] % Pow(2, k) * Pow(2, 8 - k))
  {
    var p: int, q: int, b: int := Pow(2, k), Pow(2, 8 - k), s[0];
    PowersOfTwo(k);
    assert s[..1] == [b] && out[..1] == [out[0]];
    OneByte(b);
    OneByte(out[0]);
    hide Pow;
    if b >= 128 {
      assert b - 256 == b + (-q) * p;
      DivPlusMultiple(b, -q, p);
      NegativeQuotient(b - 256, p);
    }
  }

  lemma NegativeQuotient(x: int, p: int)
    requires -128 <= x < 0 < p
    ensures -128 <= x / p < 0
  {
  }

  lemma NextShift(s: seq<Byte>, out: seq<Byte>, k: nat, overflow: int, b: Byte)
    requires k < 8 && IsShiftedRight(s, out, k, overflow)
    ensures 0 <= overflow && 0 <= b / Pow(2, k) && Or(b / Pow(2, k), overflow) < 256
    ensures IsShiftedRight(s + [b], out + [Or(b / Pow(2, k), overflow)], k, b % Pow(2, k) * Pow(2, 8 - k))
  {
    hide Pow, Or, Signed;
    var p, q := Pow(2, k), Pow(2, 8 - k);
    PowersOfTwo(k);
    var r := Signed(s) % p;
    ShiftedByte(r, b, p, q);
    OrDisjoint(b / p, overflow, r, 8 - k);
    SignedSnoc(s, b);
    SignedSnoc(out, b / p + overflow);
    ShiftedNumber(Signed(s), b, p, q);
  }

  lemma ShiftedByte(r: nat, b: Byte, p: nat, q: nat)
    requires 0 < p && p * q == 256 && r < p
    ensures 0 <= b / p < q && 0 <= r * q && b / p + r * q < 256
  {
    DivDiv(b, p, q);
    assert b / p < q by {
      assert b == b / p * p + b % p;
      if b / p >= q {
        TimesMono(q, b / p, p);
      }
    }
    TimesMono(r + 1, p, q);
    assert (r + 1) * q == r * q + q;
  }

  lemma ShiftedNumber(x: int, b: Byte, p: nat, q: nat)
    requires 0 < p && p * q == 256
    ensures (256 * x + b) / p == 256 * (x / p) + (b / p + x % p * q)
    ensures (256 * x + b) % p == b % p
  {
    assert 256 * x + b == b + (q * x) * p by {
      assert (q * x) * p == (p * q) * x;
    }
    DivPlusMultiple(b, q * x, p);
    assert q * x == q * (x / p * p + x % p);
    assert q * (x / p * p + x % p) == (p * q) * (x / p) + x % p * q;
  }

  /** Cutting off bytes rounds down, for negative numbers too. */
  lemma CutOff(s: seq<Byte>, m: nat)
    requires m < |s|
    ensures Signed(s[..|s| - m]) == Signed(s) / Weight(m)
  {
    hide Weight, Unsigned;
    DropBytes(s, m);
    WeightAdd(|s| - m, m);
    var high: int := Weight(|s| - m);
    DivPlusMultiple(Unsigned(s), -high, Weight(m));
    TimesNegative(high, Weight(m));
  }

  lemma TimesNegative(a: int, b: int)
    ensures (-a) * b == -(a * b)
  {
  }

  lemma AllCutOff(s: seq<Byte>, m: nat)
    requires s != [] && m >= |s|
    ensures Signed(s) / Weight(m) == if Negative(s) then -1 else 0
  {
    hide Weight, Unsigned;
    UnsignedBound(s);
    WeightAdd(m - |s|, |s|);
    TimesMono(1, Weight(m - |s|), Weight(|s|));
    SignedRange(s);
    if Negative(s) {
      DivUnique(Signed(s), Weight(m), -1, Signed(s) + Weight(m));
    } else {
      DivUnique(Signed(s), Weight(m), 0, Signed(s));
    }
  }

  // ----- greatest common divisors -----

  ghost predicate Divides(d: int, n: int) {
    exists k :: n == k * d
  }

  /** `g` divides both numbers, and every common divisor divides `g`. */
  ghost predicate IsGcd(g: int, a: int, b: int) {
    && g >= 0 && Divides(g, a) && Divides(g, b)
    && forall d :: Divides(d, a) && Divides(d, b) ==> Divides(d, g)
  }

  lemma GcdWithZero(a: int)
    requires a >= 0
    ensures IsGcd(a, a, 0) && a * 1 + 0 * 0 == a
  {
    assert a == 1 * a && 0 == 0 * a;
  }

  lemma DividesSum(d: int, x: int, y: int, k: int)
    requires Divides(d, x) && Divides(d, y)
    ensures Divides(d, x + k * y)
  {
    var i, j :| x == i * d && y == j * d;
    assert x + k * y == (i + k * j) * d;
  }

  lemma GcdStep(g: int, a: int, b: int)
    requires b > 0 && IsGcd(g, b, a % b)
    ensures IsGcd(g, a, b)
  {
    var q := a / b;
    assert a == a % b + q * b;
    DividesSum(g, a % b, b, q);
    forall d | Divides(d, a) && Divides(d, b)
      ensures Divides(d, g)
    {
      assert a % b == a + (-q) * b;
      DividesSum(d, a, b, -q);
    }
  }

  lemma BezoutStep(a: int, b: int, x: int, y: int)
    requires b > 0
    ensures a * y + b * (x - a / b * y) == b * x + a % b * y
  {
    assert a == a / b * b + a % b;
    assert a * y == (a / b * b + a % b) * y;
  }
}
