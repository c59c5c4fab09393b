/** Integer division as C and Java define it. */
module Division {

  /** Division that truncates toward zero. */
  function Quotient(x: int, y: int): int
    requires y != 0
  {
    var q := (if x < 0 then -x else x) / (if y < 0 then -y else y);
    if (x < 0) == (y < 0) then q else -q
  }

  /** The quotient leaves a remainder smaller than the divisor with the sign of the dividend. */
  lemma QuotientTruncates(x: int, y: int)
    requires y != 0
    ensures var r := x - Quotient(x, y) * y;
            && -(if y < 0 then -y else y) < r < (if y < 0 then -y else y)
            && (x >= 0 ==> r >= 0) && (x <= 0 ==> r <= 0)
  {
    var a, b := if x < 0 then -x else x, if y < 0 then -y else y;
    QuotientTimes(x, y);
    RemainderRange(a, b);
    hide Quotient;
  }

  lemma QuotientTimes(x: int, y: int)
    requires y != 0
    ensures var p := (if x < 0 then -x else x) / (if y < 0 then -y else y) * (if y < 0 then -y else y);
            Quotient(x, y) * y == if x < 0 then -p else p
  {
    var q := (if x < 0 then -x else x) / (if y < 0 then -y else y);
    ProductSigns(q, y);
  }

  lemma RemainderRange(a: int, b: int)
    requires b > 0
    ensures 0 <= a - a / b * b < b
  {
  }

  lemma ProductSigns(q: int, b: int)
    ensures (-q) * b == -(q * b) && q * (-b) == -(q * b) && (-q) * (-b) == q * b
  {
  }
}
