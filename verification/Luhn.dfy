/** `luhn` in `card.go`: the check of Annex B of ISO/IEC 7812-1, and which slips of
    the pen it catches. */
module Checksum {
  import opened Bytes
  import opened Decimal

  /** The contribution of a digit, doubled or not: the sum of the digits of the
      product. */
  function Weight(b: Byte, double: bool): nat
    requires IsDigit(b)
  {
    var v := b - 48;
    if double then 2 * v / 10 + 2 * v % 10 else v
  }

  /** The weighted sum, every second digit doubled from the right, the last one as
      `double` says. */
  function WeightedSum(d: Bytes, double: bool): nat
    requires AllDigits(d)
  {
    if d == [] then 0
    else WeightedSum(d[..|d| - 1], !double) + Weight(d[|d| - 1], double)
  }

  ghost predicate Checks(d: Bytes)
    requires AllDigits(d)
  {
    WeightedSum(d, false) % 10 == 0
  }

  lemma WeightIs(b: Byte, double: bool)
    requires IsDigit(b)
    ensures Weight(b, double) == if !double then b - 48 else if b < 53 then 2 * (b - 48) else 2 * (b - 48) - 9
  {
  }

  lemma SumFromRight(d: Bytes, double: bool, i: nat)
    requires i < |d| && AllDigits(d)
    ensures AllDigits(d[..i + 1]) && AllDigits(d[..i])
    ensures WeightedSum(d[..i + 1], double) == WeightedSum(d[..i], !double) + Weight(d[i], double)
  {
    hide Weight;
    assert d[..i + 1][..i] == d[..i];
  }

  lemma NoDigits(d: Bytes, double: bool)
    ensures WeightedSum(d[..0], double) == 0
  {
  }

  method Luhn(d: Bytes) returns (ok: bool)
    requires AllDigits(d)
    ensures ok <==> Checks(d)
  {
    hide WeightedSum, Weight;
    var sum, double := 0, false;
    var i := |d| - 1;
    assert d[..i + 1] == d;
    while i >= 0
      invariant -1 <= i < |d|
      invariant sum + WeightedSum(d[..i + 1], double) == WeightedSum(d, false)
    {
      SumFromRight(d, double, i);
      WeightIs(d[i], double);
      var v := d[i] - 48;
      if double {
        v := v * 2;
        if v > 9 {
          v := v - 9;
        }
      }
      sum := sum + v;
      double := !double;
      i := i - 1;
    }
    NoDigits(d, double);
    ok := sum % 10 == 0;
  }

  /** Whether the digit at position i is doubled, when the last one is as `double`. */
  predicate DoubledAt(d: Bytes, double: bool, i: nat)
    requires i < |d|
  {
    double <==> (|d| - 1 - i) % 2 == 0
  }

  lemma DoubledInPrefix(d: Bytes, double: bool, i: nat)
    requires i + 1 < |d|
    ensures DoubledAt(d[..|d| - 1], !double, i) == DoubledAt(d, double, i)
  {
  }

  /** Replacing one digit changes the sum by the difference of the weights. */
  lemma {:induction false} SumAfterChange(d: Bytes, double: bool, i: nat, x: Byte)
    requires AllDigits(d) && i < |d| && IsDigit(x)
    ensures AllDigits(d[i := x])
    ensures WeightedSum(d[i := x], double) - WeightedSum(d, double) ==
            Weight(x, DoubledAt(d, double, i)) - Weight(d[i], DoubledAt(d, double, i))
    decreases |d|
  {
    hide Weight, DoubledAt;
    var n := |d| - 1;
    var d' := d[i := x];
    if i < n {
      SumAfterChange(d[..n], !double, i, x);
      DoubledInPrefix(d, double, i);
      assert d'[..n] == d[..n][i := x];
    } else {
      assert d'[..n] == d[..n];
      DoubledLast(d, double);
    }
  }

  lemma DoubledLast(d: Bytes, double: bool)
    requires d != []
    ensures DoubledAt(d, double, |d| - 1) == double
  {
  }

  /** Distinct digits weigh differently, doubled or not, and less than ten. */
  lemma WeightsDiffer(x: Byte, y: Byte, double: bool)
    requires IsDigit(x) && IsDigit(y) && x != y
    ensures 0 <= Weight(x, double) < 10 && 0 <= Weight(y, double) < 10 && Weight(x, double) != Weight(y, double)
  {
    hide Weight;
    WeightIs(x, double);
    WeightIs(y, double);
  }

  /** A multiple of ten stays one only under a change of zero, or of ten and more. */
  lemma SmallChange(sum: int, sum': int)
    requires sum % 10 == 0 && -10 < sum' - sum < 10
    ensures sum' % 10 == 0 <==> sum' == sum
  {
  }

  /** Changing any one digit of a number that checks is detected. */
  lemma SingleChangeIsDetected(d: Bytes, i: nat, x: Byte)
    requires AllDigits(d) && Checks(d) && i < |d| && IsDigit(x) && x != d[i]
    ensures AllDigits(d[i := x]) && !Checks(d[i := x])
  {
    hide Weight, WeightedSum;
    SumAfterChange(d, false, i, x);
    WeightsDiffer(x, d[i], DoubledAt(d, false, i));
    SmallChange(WeightedSum(d, false), WeightedSum(d[i := x], false));
  }

  ghost predicate ZeroAndNine(x: Byte, y: Byte) {
    (x == 48 && y == 57) || (x == 57 && y == 48)
  }

  function Swapped(d: Bytes, i: nat): Bytes
    requires i + 1 < |d|
  {
    d[i := d[i + 1]][i + 1 := d[i]]
  }

  /** Swapping two different adjacent digits of a number that checks goes undetected
      exactly when they are 0 and 9. */
  lemma SwapIsDetectedUnlessZeroNine(d: Bytes, i: nat)
    requires AllDigits(d) && Checks(d) && i + 1 < |d| && d[i] != d[i + 1]
    ensures AllDigits(Swapped(d, i))
    ensures Checks(Swapped(d, i)) <==> ZeroAndNine(d[i], d[i + 1])
  {
    hide Weight, WeightedSum;
    var x, y := d[i], d[i + 1];
    SumAfterChange(d, false, i, y);
    SumAfterChange(d[i := y], false, i + 1, x);
    var double := DoubledAt(d, false, i);
    assert DoubledAt(d[i := y], false, i + 1) == !double;
    WeightIs(x, double);
    WeightIs(y, double);
    WeightIs(x, !double);
    WeightIs(y, !double);
    SmallChange(WeightedSum(d, false), WeightedSum(Swapped(d, i), false));
  }

  // ---- What the check is --------------------------------------------------------

  function DigitSum(n: nat): nat {
    if n < 10 then n else DigitSum(n / 10) + n % 10
  }

  /** The sum the standard describes, two digits at a time from the right: the last
      digit of each pair as it is, the one before it doubled. */
  function PairSum(d: Bytes): nat
    requires AllDigits(d)
  {
    var n := |d|;
    if n == 0 then 0
    else if n == 1 then d[0] - 48
    else PairSum(d[..n - 2]) + DigitSum(2 * (d[n - 2] - 48)) + (d[n - 1] - 48)
  }

  lemma DoubledWeight(b: Byte)
    requires IsDigit(b)
    ensures Weight(b, true) == DigitSum(2 * (b - 48))
  {
  }

  lemma {:induction false} SumByPairs(d: Bytes)
    requires AllDigits(d)
    ensures WeightedSum(d, false) == PairSum(d)
    decreases |d|
  {
    hide Weight, DigitSum;
    var n := |d|;
    if n == 1 {
      assert d[..0] == [];
      WeightIs(d[0], false);
    } else if n > 1 {
      SumByPairs(d[..n - 2]);
      assert d[..n - 1][..n - 2] == d[..n - 2];
      WeightIs(d[n - 1], false);
      DoubledWeight(d[n - 2]);
    }
  }

  /** The check is that of the standard: the check digit itself counts once. */
  lemma ChecksByPairs(d: Bytes)
    requires AllDigits(d)
    ensures Checks(d) <==> PairSum(d) % 10 == 0
  {
    hide WeightedSum, PairSum;
    SumByPairs(d);
  }

  /** Two digits check exactly when the digits of twice the first one and the second one
      sum to a multiple of ten. */
  lemma TwoDigitsCheck(x: Byte, y: Byte)
    requires IsDigit(x) && IsDigit(y)
    ensures Checks([x, y]) <==> (2 * (x - 48) / 10 + 2 * (x - 48) % 10 + (y - 48)) % 10 == 0
  {
    ChecksByPairs([x, y]);
    DoubledWeight(x);
    assert [x, y][..0] == [];
    assert PairSum([x, y]) == DigitSum(2 * (x - 48)) + (y - 48);
  }

  lemma {:induction false} SumOfParts(d: Bytes, e: Bytes, double: bool)
    requires AllDigits(d) && AllDigits(e)
    ensures AllDigits(d + e)
    ensures WeightedSum(d + e, double) ==
            WeightedSum(d, if |e| % 2 == 0 then double else !double) + WeightedSum(e, double)
    decreases |e|
  {
    hide Weight;
    if e == [] {
      assert d + e == d;
    } else {
      var n := |e| - 1;
      SumOfParts(d, e[..n], !double);
      assert (d + e)[..|d| + n] == d + e[..n];
    }
  }

  /** A block of even length that checks can be appended without changing the check. */
  lemma EvenBlockIsNeutral(d: Bytes, e: Bytes)
    requires AllDigits(d) && AllDigits(e) && |e| % 2 == 0 && Checks(e)
    ensures AllDigits(d + e) && (Checks(d + e) <==> Checks(d))
  {
    hide WeightedSum;
    SumOfParts(d, e, false);
  }

  lemma LeadingZeroIsNeutral(d: Bytes)
    requires AllDigits(d)
    ensures AllDigits([48] + d) && (Checks([48] + d) <==> Checks(d))
  {
    SumOfParts([48], d, false);
    assert [48][..0] == [];
  }
}
