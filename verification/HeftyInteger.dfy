/** Big integers in two's complement over byte arrays of any length. */
module HeftyIntegers {
  import opened Bytes
  import opened DigitProofs
  import opened Division
  import opened Extrema
  import opened Numerals
  import opened Options

  class HeftyInteger {
    var val: array<Byte>

    constructor (b: array<Byte>)
      ensures val == b
    {
      val := b;
    }

    ghost predicate Valid()
      reads this
    {
      val.Length > 0
    }

    ghost function Value(): int
      reads this, val
    {
      Signed(val[..])
    }

    predicate IsNegative()
      requires Valid()
      reads this, val
      ensures IsNegative() <==> Value() < 0
    {
      SignedRange(val[..]);
      val[0] >= 128
    }

    method Length() returns (n: nat)
      ensures n == val.Length
    {
      n := val.Length;
    }

    /** Puts a byte in front. */
    method Extend(extension: Byte)
      modifies this
      ensures fresh(val) && val[..] == [extension] + old(val[..])
    {
      var newv := new Byte[val.Length + 1];
      newv[0] := extension;
      for i := 0 to val.Length
        invariant newv[..i + 1] == [extension] + val[..i]
        modifies newv
      {
        newv[i + 1] := val[i];
      }
      val := newv;
    }

    /** `b` filled up with its sign to `n` bytes. */
    static method Padded(b: array<Byte>, n: nat) returns (newb: array<Byte>)
      requires 0 < b.Length <= n
      ensures newb.Length == n && Signed(newb[..]) == Signed(b[..]) && (Negative(newb[..]) <==> Negative(b[..]))
    {
      if b.Length == n {
        return b;
      }
      var diff := n - b.Length;
      var pad: Byte := if b[0] >= 128 then 255 else 0;
      newb := new Byte[n];
      for i := 0 to diff
        invariant forall j :: 0 <= j < i ==> newb[j] == pad
      {
        newb[i] := pad;
      }
      for i := 0 to b.Length
        invariant forall j :: 0 <= j < diff ==> newb[j] == pad
        invariant forall j :: 0 <= j < i ==> newb[j + diff] == b[j]
      {
        newb[i + diff] := b[i];
      }
      assert newb[..] == newb[..diff] + b[..];
      SignExtendBy(b[..], newb[..diff]);
    }

    /** The digits of the sum of two numbers of the same length. */
    static method AddDigits(a: array<Byte>, b: array<Byte>) returns (res: array<Byte>, carry: int)
      requires a.Length == b.Length
      ensures fresh(res) && IsPartialSum(a[..], b[..], res[..], 0, carry)
    {
      carry := 0;
      res := new Byte[a.Length];
      var i: nat := a.Length;
      while i > 0
        invariant i <= a.Length
        invariant IsPartialSum(a[..], b[..], res[..], i, carry)
      {
        ghost var before := res[..];
        var sum := a[i - 1] + b[i - 1] + carry;
        res[i - 1] := sum % 256;
        PartialSumStep(a[..], b[..], before, i, carry, sum % 256, sum / 256);
        assert res[..] == before[i - 1 := sum % 256];
        carry := sum / 256;
        i := i - 1;
      }
    }

    method Add(other: HeftyInteger) returns (res: HeftyInteger)
      requires Valid() && other.Valid()
      ensures fresh(res) && fresh(res.val) && res.Valid()
      ensures res.Value() == Value() + other.Value()
      ensures var n := Max(val.Length, other.val.Length);
              res.val.Length == if Fits(Value() + other.Value(), n) then n else n + 1
    {
      hide Signed, Fits;
      var a, b;
      if val.Length < other.val.Length {
        a, b := other.val, val;
      } else {
        a, b := val, other.val;
      }
      b := Padded(b, a.Length);
      var digits, carry := AddDigits(a, b);
      SumExtends(a[..], b[..], digits[..], carry);
      res := new HeftyInteger(digits);
      if !IsNegative() && !other.IsNegative() {
        if res.IsNegative() {
          res.Extend(carry);
        }
      } else if IsNegative() && other.IsNegative() {
        if !res.IsNegative() {
          res.Extend(255);
        }
      }
    }

    /** The number given by one byte. */
    static method Of(b: Byte) returns (res: HeftyInteger)
      requires b < 128
      ensures fresh(res) && fresh(res.val) && res.val.Length == 1 && res.Value() == b
    {
      var digits := new Byte[1](_ => b);
      res := new HeftyInteger(digits);
      assert digits[..] == [b] + [];
      UnsignedCons(b, []);
    }

    /** Whether the negation needs another byte: only the first bit is set. */
    method IsLeast() returns (needsEx: bool)
      requires Valid()
      ensures needsEx <==> Value() == -128 * Weight(val.Length - 1)
    {
      LeastNumber(val[..]);
      needsEx := false;
      if val[0] == 128 {
        needsEx := true;
        for i := 1 to val.Length
          invariant needsEx && forall j :: 0 < j < i ==> val[j] == 0
        {
          if val[i] != 0 {
            needsEx := false;
            break;
          }
        }
      }
    }

    /** All bits flipped, with a zero in front if that is needed. */
    method Flipped() returns (neg: array<Byte>)
      requires Valid()
      ensures fresh(neg) && Signed(neg[..]) == -1 - Value()
      ensures neg.Length == val.Length + if Value() == -128 * Weight(val.Length - 1) then 1 else 0
    {
      neg := new Byte[val.Length];
      var offset: nat := 0;
      var needsEx := IsLeast();
      if needsEx {
        neg := new Byte[val.Length + 1];
        neg[0] := 0;
        offset := 1;
      }
      for i := 0 to val.Length
        invariant offset == 1 ==> neg[0] == 0
        invariant forall j :: 0 <= j < i ==> neg[j + offset] == 255 - val[j]
      {
        neg[i + offset] := 255 - val[i];
      }
      hide Signed;
      Complement(val[..], neg[offset..]);
      if offset == 1 {
        assert neg[..] == [0] + neg[1..];
        LeastIsNegative(val[..]);
        SignExtend(neg[1..]);
      } else {
        assert neg[..] == neg[offset..];
      }
    }

    method Negate() returns (res: HeftyInteger)
      requires Valid()
      ensures fresh(res) && fresh(res.val) && res.Valid() && res.Value() == -Value()
      ensures res.val.Length == val.Length + if Value() == -128 * Weight(val.Length - 1) then 1 else 0
    {
      hide Signed, Weight;
      NegationFits(val[..]);
      var neg := Flipped();
      var negLi := new HeftyInteger(neg);
      var one := Of(1);
      assert negLi.Value() + one.Value() == -Value() && |val[..]| == val.Length;
      assert Fits(negLi.Value() + one.Value(), neg.Length);
      res := negLi.Add(one);
    }

    method Subtract(other: HeftyInteger) returns (res: HeftyInteger)
      requires Valid() && other.Valid()
      ensures fresh(res) && fresh(res.val) && res.Valid() && res.Value() == Value() - other.Value()
    {
      var negated := other.Negate();
      res := Add(negated);
    }

    /** Shifts by 0 to 7 bits; the second result is what is pushed out at the front. */
    method ShiftDigits(bitShift: nat) returns (shiftedValue: array<Byte>, overflow: int)
      requires Valid() && bitShift < 8
      ensures fresh(shiftedValue) && IsPartialShift(val[..], shiftedValue[..], 0, bitShift, overflow)
    {
      shiftedValue := new Byte[val.Length];
      overflow := 0;
      var i: nat := val.Length;
      assert val[i..] == [] && shiftedValue[i..] == [];
      while i > 0
        invariant i <= val.Length
        invariant IsPartialShift(val[..], shiftedValue[..], i, bitShift, overflow)
      {
        ghost var before := shiftedValue[..];
        OrDisjoint(overflow, val[i - 1] * Pow(2, bitShift), val[i - 1], bitShift);
        OrSymmetric(val[i - 1] * Pow(2, bitShift), overflow);
        var shifted := Or(val[i - 1] * Pow(2, bitShift), overflow);
        shiftedValue[i - 1] := shifted % 256;
        PartialShiftStep(val[..], before, i, bitShift, overflow, shifted % 256, shifted / 256);
        assert shiftedValue[..] == before[i - 1 := shifted % 256];
        overflow := shifted / 256;
        i := i - 1;
      }
    }

    /** Multiplies by a power of two; None models the exception for a negative shift. */
    method LeftShift(bits: int) returns (res: Option<HeftyInteger>)
      requires Valid()
      ensures res.None? <==> bits < 0
      ensures bits >= 0 ==> fresh(res.value) && fresh(res.value.val) && res.value.Valid()
      ensures bits >= 0 ==> res.value.Value() == Value() * Pow(2, bits)
    {
      if bits < 0 {
        return None;
      }
      hide Pow, Signed, Weight;
      var bitShift := bits % 8;
      var byteShift := (bits - bitShift) / 8;
      var shifted := ShiftWithin(bitShift);
      ShiftWeight(byteShift, bitShift);
      assert bits == 8 * byteShift + bitShift;
      var moved := shifted.ByteLeftShift(byteShift);
      TimesThree(Value(), Pow(2, bitShift), Weight(byteShift));
      res := Some(moved);
    }

    /** Shifts by less than a byte, extended as the sign demands. */
    method ShiftWithin(bitShift: nat) returns (shifted: HeftyInteger)
      requires Valid() && bitShift < 8
      ensures fresh(shifted) && fresh(shifted.val) && shifted.Valid() && shifted.Value() == Value() * Pow(2, bitShift)
    {
      hide Pow, Or, Signed, IsPartialShift;
      var digits, overflow := ShiftDigits(bitShift);
      ShiftExtends(val[..], digits[..], bitShift, overflow);
      shifted := new HeftyInteger(digits);
      if overflow != 0 {
        shifted.Extend(overflow);
      }
      if !IsNegative() && shifted.IsNegative() {
        shifted.Extend(0);
      } else if IsNegative() && !shifted.IsNegative() {
        PowersOfTwo(bitShift);
        OrMask(overflow, bitShift);
        shifted.val[0] := Or(shifted.val[0], 256 - Pow(2, bitShift));
        assert shifted.val[..] == [overflow + 256 - Pow(2, bitShift)] + digits[..];
      }
    }

    method ByteLeftShift(bytes: nat) returns (res: HeftyInteger)
      requires Valid()
      ensures fresh(res) && fresh(res.val) && res.Valid() && res.Value() == Value() * Weight(bytes)
    {
      var shiftedArr := new Byte[val.Length + bytes];
      for i := 0 to val.Length
        invariant shiftedArr[..i] == val[..i]
      {
        shiftedArr[i] := val[i];
      }
      for i := val.Length to shiftedArr.Length
        invariant shiftedArr[..val.Length] == val[..]
        invariant forall j :: val.Length <= j < i ==> shiftedArr[j] == 0
      {
        shiftedArr[i] := 0;
      }
      assert shiftedArr[..] == val[..] + shiftedArr[val.Length..];
      AppendZeros(val[..], shiftedArr[val.Length..]);
      res := new HeftyInteger(shiftedArr);
    }

    method GetBit(bitPos: int) returns (bit: Option<bool>)
      requires Valid()
      ensures bit.None? <==> !(0 <= bitPos < 8 * val.Length)
      ensures bit.Some? ==> (bit.value <==> BitOf(Unsigned(val[..]), bitPos) == 1)
    {
      if bitPos < 0 || bitPos >= 8 * val.Length {
        return None;
      }
      var bits := bitPos % 8;
      var bytes := (bitPos - bits) / 8;
      var targetByte := val[val.Length - bytes - 1];
      ByteOfBit(val[..], bitPos);
      bit := Some(targetByte / Pow(2, bits) % 2 == 1);
    }

    /** Sets a bit in place; the result shares the bytes. */
    method SetBit(bitPos: int, bitVal: bool) returns (res: Option<HeftyInteger>)
      requires Valid()
      modifies val
      ensures res.None? <==> !(0 <= bitPos < 8 * val.Length)
      ensures res.None? ==> val[..] == old(val[..])
      ensures res.Some? ==> fresh(res.value) && res.value.val == val
      ensures res.Some? ==>
                var before := old(Unsigned(val[..]));
                Unsigned(val[..]) == before + ((if bitVal then 1 else 0) - BitOf(before, bitPos)) * Pow(2, bitPos)
    {
      if bitPos < 0 || bitPos >= 8 * val.Length {
        return None;
      }
      var bits := bitPos % 8;
      var bytes := (bitPos - bits) / 8;
      var targetByte := val[val.Length - bytes - 1];
      ghost var digits := val[..];
      ChangedBit(digits, bitPos, bitVal);
      MaskedByte(targetByte, bits);
      if bitVal {
        targetByte := Or(targetByte, Pow(2, bits));
      } else {
        targetByte := And(targetByte, 255 - Pow(2, bits));
      }
      val[val.Length - bytes - 1] := targetByte;
      assert val[..] == digits[|digits| - 1 - bitPos / 8 := targetByte];
      var shared := new HeftyInteger(val);
      res := Some(shared);
    }

    method Multiply(other: HeftyInteger) returns (res: HeftyInteger)
      requires Valid() && other.Valid()
      ensures fresh(res) && fresh(res.val) && res.Valid() && res.Value() == Value() * other.Value()
    {
      var x, y := this, other;
      if val.Length <= other.val.Length {
        x, y := other, this;
      }
      hide Signed;
      ghost var vx, vy := x.Value(), y.Value();
      var ansNegative := x.IsNegative() != y.IsNegative();
      if x.IsNegative() {
        x := x.Negate();
      }
      if y.IsNegative() {
        y := y.Negate();
      }
      assert x.Value() == Abs(vx) && y.Value() == Abs(vy);
      SignsOfProduct(vx, vy);
      res := MultiplyPositive(x, y);
      if ansNegative {
        res := res.Negate();
      }
    }

    /** Grade school multiplication of two nonnegative numbers. */
    static method MultiplyPositive(x: HeftyInteger, y: HeftyInteger) returns (res: HeftyInteger)
      requires x.Valid() && y.Valid() && x.Value() >= 0 && y.Value() >= 0
      ensures fresh(res) && fresh(res.val) && res.Valid() && res.Value() == x.Value() * y.Value()
    {
      hide Signed, Unsigned, BitOf, Pow;
      res := Of(0);
      ghost var u := Unsigned(y.val[..]);
      SignedRange(y.val[..]);
      AllBits(y.val[..]);
      ProductStarts(x.Value(), u);
      for i := 0 to 8 * y.val.Length
        invariant fresh(res) && fresh(res.val) && res.Valid()
        invariant res.Value() == x.Value() * (u % Pow(2, i))
      {
        ProductStep(x.Value(), u, i);
        var currBit := y.GetBit(i);
        if currBit.value {
          var temp := x.LeftShift(i);
          res := res.Add(temp.value);
        }
      }
    }

    /** The digits of a nonnegative number without its zeros in front but one. */
    static method Cut(oldArr: array<Byte>) returns (newArr: array<Byte>)
      requires oldArr.Length > 0 && !Negative(oldArr[..])
      ensures Signed(newArr[..]) == Signed(oldArr[..]) && !Negative(newArr[..])
      ensures 0 < newArr.Length == PrunedLength(oldArr[..])
    {
      var cut: nat := 0;
      while cut < oldArr.Length - 1 && oldArr[cut] == 0
        invariant cut < oldArr.Length
        invariant cut > 0 ==> forall i :: 0 <= i <= cut ==> oldArr[i] == 0
      {
        if oldArr[cut + 1] == 0 {
          cut := cut + 1;
        } else {
          break;
        }
      }
      PrunedPositive(oldArr[..], cut);
      newArr := oldArr;
      if cut > 0 {
        newArr := new Byte[oldArr.Length - cut];
        for i := cut to oldArr.Length
          invariant newArr[..i - cut] == oldArr[cut..i]
        {
          newArr[i - cut] := oldArr[i];
        }
        assert newArr[..newArr.Length] == newArr[..] && oldArr[cut..oldArr.Length] == oldArr[..][cut..];
      }
      assert newArr[..] == oldArr[..][cut..];
    }

    /** The same number without needless bytes in front; it may share its bytes with this. */
    method Prune() returns (res: HeftyInteger)
      requires Valid()
      ensures fresh(res) && res.Valid() && res.Value() == Value()
      ensures res.val.Length == PrunedLength(val[..])
    {
      hide Signed, PrunedLength, Weight;
      SignedRange(val[..]);
      var negative := IsNegative();
      var oldInt := this;
      if oldInt.IsNegative() {
        oldInt := oldInt.Negate();
        NegationPrunes(val[..], oldInt.val[..]);
      }
      var newArr := Cut(oldInt.val);
      res := new HeftyInteger(newArr);
      if negative && !res.IsNegative() {
        NotLeast(newArr[..]);
        res := res.Negate();
      }
    }

    /** Compares the pruned digits. This is equality of the values exactly when the value is zero or
        both have, or both lack, a spare byte. */
    method Equals(other: HeftyInteger) returns (same: bool)
      requires Valid() && other.Valid()
      ensures same <==> Value() == other.Value()
                        && (Value() == 0 || (HasSpareByte(val[..]) <==> HasSpareByte(other.val[..])))
    {
      var thisInt := Prune();
      var otherInt := other.Prune();
      SignedDigits(thisInt.val[..], otherInt.val[..]);
      if thisInt.val.Length != otherInt.val.Length {
        return false;
      }
      var difference := false;
      for i := 0 to thisInt.val.Length
        invariant !difference && thisInt.val[..i] == otherInt.val[..i]
      {
        if thisInt.val[i] != otherInt.val[i] {
          difference := true;
          break;
        }
      }
      assert thisInt.val[..] == thisInt.val[..thisInt.val.Length];
      same := !difference;
    }

    /** Whether this is zero: the comparison with a one-byte zero is exact. */
    method IsZero() returns (zero: bool)
      requires Valid()
      ensures zero <==> Value() == 0
    {
      var z := Of(0);
      zero := Equals(z);
    }

    /** One step of long division: the next bit goes into the remainder, and the divisor is taken off
        if it fits. */
    static method DivideStep(dividend: HeftyInteger, divisor: HeftyInteger, quotient: HeftyInteger, remainder: HeftyInteger,
                             i: nat)
      returns (q: HeftyInteger, r: HeftyInteger)
      requires dividend.Valid() && divisor.Valid() && quotient.Valid() && remainder.Valid()
      requires !Negative(dividend.val[..]) && i < 8 * dividend.val.Length == 8 * quotient.val.Length
      requires quotient.val != dividend.val && quotient.val != divisor.val && quotient.val != remainder.val
      requires divisor.Value() > 0 && BitOf(Unsigned(quotient.val[..]), i) == 0
      modifies quotient.val
      ensures fresh(r) && fresh(r.val) && r.Valid() && q.Valid() && q.val == quotient.val
      ensures var next := 2 * remainder.Value() + BitOf(Unsigned(dividend.val[..]), i);
              && r.Value() == (if next - divisor.Value() >= 0 then next - divisor.Value() else next)
              && Unsigned(q.val[..]) == old(Unsigned(quotient.val[..])) + if next - divisor.Value() >= 0 then Pow(2, i) else 0
    {
      hide Signed, Unsigned, BitOf;
      var currBit := dividend.GetBit(i);
      var shifted := remainder.LeftShift(1);
      assert Pow(2, 1) == 2 * Pow(2, 0) && Pow(2, 0) == 1;
      hide Pow;
      BitIsBit(Unsigned(dividend.val[..]), i);
      q, r := quotient, shifted.value;
      r := r.SetLowestBit(remainder.Value(), currBit.value);
      var difference := r.Subtract(divisor);
      if !difference.IsNegative() {
        r := difference;
        var changed := quotient.SetBit(i, true);
        q := changed.value;
      }
    }

    /** Sets bit 0 of a number that has just been shifted left by one. */
    method SetLowestBit(ghost half: int, bit: bool) returns (res: HeftyInteger)
      requires Valid() && Value() == 2 * half
      modifies val
      ensures fresh(res) && res.val == val && res.Valid() && res.Value() == 2 * half + if bit then 1 else 0
    {
      ghost var digits := val[..];
      EvenBits(digits, half);
      var changed := SetBit(0, bit);
      res := changed.value;
      LowestBitSet(digits, val[..], half, bit);
    }

    /** Division with the quotient truncated toward zero; None models the exception for a zero divisor. */
    method Divide(divisor: HeftyInteger) returns (res: Option<HeftyInteger>)
      requires Valid() && divisor.Valid()
      ensures res.None? <==> divisor.Value() == 0
      ensures res.Some? ==> res.value.Valid() && res.value.Value() == Quotient(Value(), divisor.Value())
    {
      hide Signed;
      var zero := divisor.IsZero();
      if zero {
        return None;
      }
      var dividend, positive := this, divisor;
      var ansNegative := IsNegative() != divisor.IsNegative();
      if dividend.IsNegative() {
        dividend := dividend.Negate();
      }
      if positive.IsNegative() {
        positive := positive.Negate();
      }
      var quotient := DividePositive(dividend, positive);
      quotient := quotient.Prune();
      if ansNegative {
        quotient := quotient.Negate();
      }
      res := Some(quotient);
    }

    /** Long division of nonnegative numbers. */
    static method DividePositive(dividend: HeftyInteger, divisor: HeftyInteger) returns (quotient: HeftyInteger)
      requires dividend.Valid() && divisor.Valid() && dividend.Value() >= 0 && divisor.Value() > 0
      ensures quotient.Valid() && quotient.Value() == dividend.Value() / divisor.Value()
    {
      hide Signed, Unsigned, BitOf, Pow, IsPartialDivision;
      SignedRange(dividend.val[..]);
      AllBits(dividend.val[..]);
      ghost var u, d := dividend.Value(), divisor.Value();
      var quotientArr := new Byte[dividend.val.Length](_ => 0);
      ZerosUnsigned(quotientArr[..]);
      quotient := new HeftyInteger(quotientArr);
      var remainder := Of(0);
      var i: nat := 8 * dividend.val.Length;
      DivisionStarts(u, d, i);
      while i > 0
        invariant i <= 8 * dividend.val.Length
        invariant quotient.val == quotientArr && remainder.Valid() && remainder.val != quotientArr
        invariant dividend.Value() == u && divisor.Value() == d
        invariant Unsigned(dividend.val[..]) == u && !Negative(dividend.val[..])
        invariant IsPartialDivision(u, d, Unsigned(quotientArr[..]), remainder.Value(), i)
        modifies quotientArr
      {
        DivisionStep(u, d, Unsigned(quotientArr[..]), remainder.Value(), i);
        quotient, remainder := DivideStep(dividend, divisor, quotient, remainder, i - 1);
        i := i - 1;
      }
      DivisionEnds(u, d, Unsigned(quotientArr[..]), remainder.Value());
      QuotientFits(dividend.val[..], quotientArr[..], u, d);
    }

    /** The remainder that is not negative; None models the exceptions for a modulus that is not positive. */
    method Modulo(other: HeftyInteger) returns (res: Option<HeftyInteger>)
      requires Valid() && other.Valid()
      ensures res.None? <==> other.Value() <= 0
      ensures res.Some? ==> res.value.Valid() && res.value.Value() == Value() % other.Value()
    {
      hide Signed;
      if other.IsNegative() {
        return None;
      }
      var zero := other.IsZero();
      if zero {
        return None;
      }
      ghost var v, n := Value(), other.Value();
      var quotient := Divide(other);
      var product := quotient.value.Multiply(other);
      var result := Subtract(product);
      QuotientTruncates(v, n);
      ModuloFromQuotient(v, n);
      if result.IsNegative() {
        result := result.Add(other);
      }
      result := result.Prune();
      res := Some(result);
    }

    /** Greatest common divisor and factors: the results g, x, y with this * x + other * y == g. */
    method XGCD(other: HeftyInteger) returns (res: Option<seq<HeftyInteger>>)
      requires Valid() && other.Valid()
      ensures res.None? <==> Value() < 0 || other.Value() < 0
      ensures res.Some? ==> IsBezout(res.value, Value(), other.Value())
    {
      hide Signed;
      if IsNegative() || other.IsNegative() {
        return None;
      }
      var a, b, swapped := this, other, false;
      if val.Length < other.val.Length {
        a, b, swapped := other, this, true;
      }
      var results := RecXGCD(a, b);
      if swapped {
        var temp := results[1];
        results := results[1 := results[2]];
        results := results[2 := temp];
      }
      res := Some(results);
    }

    static ghost predicate IsBezout(r: seq<HeftyInteger>, a: int, b: int)
      reads r, set i | 0 <= i < |r| :: r[i].val
    {
      && |r| == 3 && r[0].Valid() && r[1].Valid() && r[2].Valid()
      && IsGcd(r[0].Value(), a, b) && a * r[1].Value() + b * r[2].Value() == r[0].Value()
    }

    static method RecXGCD(a: HeftyInteger, b: HeftyInteger) returns (r: seq<HeftyInteger>)
      requires a.Valid() && b.Valid() && a.Value() >= 0 && b.Value() >= 0
      ensures IsBezout(r, a.Value(), b.Value())
      decreases b.Value()
    {
      hide Signed;
      var zero := b.IsZero();
      if zero {
        var one := Of(1);
        var none := Of(0);
        GcdWithZero(a.Value());
        return [a, one, none];
      }
      ghost var va, vb := a.Value(), b.Value();
      var rest := a.Modulo(b);
      var result := RecXGCD(b, rest.value);
      GcdStep(result[0].Value(), va, vb);
      var gcd, x, y := result[0], result[1], result[2];
      var quotient := a.Divide(b);
      var product := quotient.value.Multiply(y);
      var newY := x.Subtract(product);
      BezoutStep(va, vb, x.Value(), y.Value());
      r := [gcd, y, newY];
    }

    /** Shifts right within bytes, from the first byte on. */
    method ShiftDigitsRight(bitShift: nat) returns (shiftedValue: array<Byte>)
      requires Valid() && bitShift < 8
      ensures fresh(shiftedValue) && shiftedValue.Length == val.Length
      ensures Signed(shiftedValue[..]) == Value() / Pow(2, bitShift)
    {
      hide Signed, IsShiftedRight, Pow, Or;
      shiftedValue := new Byte[val.Length];
      PowersOfTwo(bitShift);
      var p, q := Pow(2, bitShift), Pow(2, 8 - bitShift);
      // the first byte keeps its sign
      var toShift := val[0];
      shiftedValue[0] := if toShift >= 128 then (toShift - 256) / p + 256 else toShift / p;
      var overflow := toShift % p * q;
      FirstShift(val[..], shiftedValue[..], bitShift);
      var i: nat := 1;
      while i < val.Length
        invariant 1 <= i <= val.Length
        invariant IsShiftedRight(val[..i], shiftedValue[..i], bitShift, overflow)
      {
        toShift := val[i];
        ghost var before := shiftedValue[..i];
        NextShift(val[..i], before, bitShift, overflow, toShift);
        shiftedValue[i] := Or(toShift / p, overflow);
        overflow := toShift % p * q;
        assert val[..i + 1] == val[..i] + [toShift];
        assert shiftedValue[..i + 1] == before + [shiftedValue[i]];
        i := i + 1;
      }
      assert val[..i] == val[..] && shiftedValue[..i] == shiftedValue[..];
      ShiftedAll(val[..], shiftedValue[..], bitShift, overflow);
    }

    /** Floor division by a power of two; None models the exception for a negative shift. */
    method RightShift(bits: int) returns (res: Option<HeftyInteger>)
      requires Valid()
      ensures res.None? <==> bits < 0
      ensures bits >= 0 ==> fresh(res.value) && fresh(res.value.val) && res.value.Valid()
      ensures bits >= 0 ==> res.value.Value() == Value() / Pow(2, bits)
    {
      hide Signed;
      if bits < 0 {
        return None;
      }
      var bitShift := bits % 8;
      var byteShift := (bits - bitShift) / 8;
      var digits := ShiftDigitsRight(bitShift);
      var shifted := new HeftyInteger(digits);
      ShiftWeight(byteShift, bitShift);
      DivDiv(Value(), Pow(2, bitShift), Weight(byteShift));
      TimesThree(1, Pow(2, bitShift), Weight(byteShift));
      assert bits == 8 * byteShift + bitShift;
      if byteShift > 0 {
        shifted := shifted.ByteRightShift(byteShift);
      } else {
        NoBytes();
      }
      res := Some(shifted);
    }

    /** Cuts off the last bytes. */
    method ByteRightShift(bytes: nat) returns (res: HeftyInteger)
      requires Valid()
      ensures fresh(res) && fresh(res.val) && res.Valid() && res.Value() == Value() / Weight(bytes)
    {
      var shiftedValue;
      if bytes >= val.Length {
        AllCutOff(val[..], bytes);
        var sign: Byte := if IsNegative() then 255 else 0;
        shiftedValue := new Byte[1](_ => sign);
        assert shiftedValue[..] == [sign] + [];
        UnsignedCons(shiftedValue[0], []);
        NoBytes();
        WeightStep(0);
        res := new HeftyInteger(shiftedValue);
        return;
      }
      shiftedValue := new Byte[val.Length - bytes];
      for i := 0 to shiftedValue.Length
        invariant shiftedValue[..i] == val[..i]
      {
        shiftedValue[i] := val[i];
      }
      assert shiftedValue[..] == val[..][..val.Length - bytes];
      CutOff(val[..], bytes);
      res := new HeftyInteger(shiftedValue);
    }
  }

  lemma ModuloFromQuotient(x: int, n: int)
    requires n > 0
    ensures var r := x - Quotient(x, n) * n;
            -n < r < n ==> x % n == if r < 0 then r + n else r
  {
    var r := x - Quotient(x, n) * n;
    if -n < r < 0 {
      assert x == (Quotient(x, n) - 1) * n + (r + n) by {
        TimesMinusOne(Quotient(x, n), n);
      }
      DivUnique(x, n, Quotient(x, n) - 1, r + n);
    } else if 0 <= r < n {
      DivUnique(x, n, Quotient(x, n), r);
    }
  }
}
