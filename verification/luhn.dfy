/** The Luhn checksum (ISO/IEC 7812-1, Annex B) that gates SIRET detection
    (RegexService.luhn_check in backend/server.py). */
module Luhn {

  import Seqs

  predicate IsDigit(c: char) {
    '0' <= c <= '9'
  }

  predicate IsDigitString(s: string) {
    forall i :: 0 <= i < |s| ==> IsDigit(s[i])
  }

  function DigitValue(c: char): (d: nat)
    requires IsDigit(c)
    ensures d <= 9
  {
    c as int - '0' as int
  }

  /** `[int(d) for d in s]`: one decimal value per character. */
  function DigitsOf(s: string): (ds: seq<nat>)
    requires IsDigitString(s)
    ensures |ds| == |s|
    ensures forall i :: 0 <= i < |ds| ==> ds[i] <= 9
  {
    seq(|s|, i requires 0 <= i < |s| => DigitValue(s[i]))
  }

  /** The decimal digits of `str(n)`, most significant first. */
  function DecimalDigits(n: nat): seq<nat>
  {
    if n < 10 then [n] else DecimalDigits(n / 10) + [n % 10]
  }

  /** A digit counted at its face value, as `sum(odd_digits)` counts it. */
  function FaceValue(d: nat): int {
    d
  }

  lemma {:induction false} FaceSumNonNegative(s: seq<nat>)
    ensures Seqs.SumOver(s, FaceValue) >= 0
    decreases |s|
  {
    if s != [] {
      FaceSumNonNegative(s[1..]);
    }
  }

  /** `sum(digits_of(d * 2))`: for a single digit this is the doubled digit,
      less nine when doubling carries into a second digit. */
  function DoubledDigitSum(d: nat): (r: nat)
    ensures d <= 9 ==> r == if 2 * d > 9 then 2 * d - 9 else 2 * d
  {
    var total := Seqs.SumOver(DecimalDigits(2 * d), FaceValue);
    FaceSumNonNegative(DecimalDigits(2 * d));
    assert d <= 9 ==> total == if 2 * d > 9 then 2 * d - 9 else 2 * d by {
      if d <= 9 {
        DigitSumOfDouble(d);
      }
    }
    total
  }

  lemma DigitSumOfDouble(d: nat)
    requires d <= 9
    ensures Seqs.SumOver(DecimalDigits(2 * d), FaceValue) == if 2 * d > 9 then 2 * d - 9 else 2 * d
  {
    if 2 * d >= 10 {
      var low: nat := 2 * d - 10;
      assert DecimalDigits(1) == [1];
      assert DecimalDigits(2 * d) == [1] + [low];
      assert Seqs.SumOver([low], FaceValue) == low;
      assert Seqs.SumOver([1, low], FaceValue) == 1 + Seqs.SumOver([low], FaceValue);
    }
  }

  function SumDoubled(s: seq<nat>): nat
  {
    if s == [] then 0 else DoubledDigitSum(s[0]) + SumDoubled(s[1..])
  }

  /** Every other element, walking left from index `n - 1`. For
      1 <= n <= |ds| this is the Python slice `ds[n-1::-2]`. For n = 0 it is
      empty; `Checksum` asks for that only as `ds[-2::-2]` of a one-element
      list, which is empty too. */
  function StepBack(ds: seq<nat>, n: nat): seq<nat>
    requires n <= |ds|
  {
    if n == 0 then [] else [ds[n - 1]] + StepBack(ds, if n < 2 then 0 else n - 2)
  }

  /** The slice has (n + 1) / 2 elements, the k-th taken from index
      n - 1 - 2k. */
  lemma {:induction false} StepBackElements(ds: seq<nat>, n: nat)
    requires n <= |ds|
    ensures |StepBack(ds, n)| == (n + 1) / 2
    ensures forall k :: 0 <= k < |StepBack(ds, n)| ==> StepBack(ds, n)[k] == ds[n - 1 - 2 * k]
    decreases n
  {
    if n > 0 {
      var m := if n < 2 then 0 else n - 2;
      StepBackElements(ds, m);
      var r := StepBack(ds, n);
      assert r == [ds[n - 1]] + StepBack(ds, m);
      forall k | 0 < k < |r|
        ensures r[k] == ds[n - 1 - 2 * k]
      {
        assert r[k] == StepBack(ds, m)[k - 1];
      }
    }
  }

  /** `luhn_checksum`: the digits at odd places from the right (`digits[-1::-2]`)
      summed as they are, those at even places (`digits[-2::-2]`) through
      `DoubledDigitSum`, the total taken modulo ten. */
  function Checksum(ds: seq<nat>): nat
  {
    var oddDigits := StepBack(ds, |ds|);
    var evenDigits := StepBack(ds, if |ds| == 0 then 0 else |ds| - 1);
    (Seqs.SumOver(oddDigits, FaceValue) + SumDoubled(evenDigits)) % 10
  }

  /** `luhn_check`; the source only ever applies it to digit strings (`int(d)`
      raises on anything else). The slice-and-sum computation is the Luhn
      algorithm. */
  function LuhnCheck(number: string): (ok: bool)
    requires IsDigitString(number)
    ensures ok <==> LuhnValid(number)
  {
    ChecksumMeetsLuhn(number);
    Checksum(DigitsOf(number)) == 0
  }

  /** The checksum of a digit string vanishes exactly when its positional
      Luhn sum is a multiple of ten. */
  lemma ChecksumMeetsLuhn(s: string)
    requires IsDigitString(s)
    ensures Checksum(DigitsOf(s)) == 0 <==> LuhnValid(s)
  {
    var ds := DigitsOf(s);
    SlicesMatchWeights(ds, |ds|);
    assert ds[..|ds|] == ds;
  }

  // ---------------------------------------------------------------------
  // Reference definition, read off the algorithm's description

  /** The weight of one digit: kept at an odd place from the right, doubled
      with its digits summed at an even place. */
  function Contribution(d: nat, odd: bool): nat
  {
    if odd then d else if 2 * d > 9 then 2 * d - 9 else 2 * d
  }

  /** Sum of the contributions, the rightmost digit sitting at place `odd`. */
  function WeightedSum(ds: seq<nat>, odd: bool): nat
    decreases |ds|
  {
    if ds == [] then 0
    else Contribution(ds[|ds| - 1], odd) + WeightedSum(ds[..|ds| - 1], !odd)
  }

  predicate LuhnValid(s: string)
    requires IsDigitString(s)
  {
    WeightedSum(DigitsOf(s), true) % 10 == 0
  }

  /** The two slices and their sums add up to the positional weighted sum of
      the first `n` digits. */
  lemma {:induction false} SlicesMatchWeights(ds: seq<nat>, n: nat)
    requires n <= |ds|
    requires forall i :: 0 <= i < |ds| ==> ds[i] <= 9
    ensures WeightedSum(ds[..n], true)
         == Seqs.SumOver(StepBack(ds, n), FaceValue) + SumDoubled(StepBack(ds, if n == 0 then 0 else n - 1))
    ensures WeightedSum(ds[..n], false)
         == SumDoubled(StepBack(ds, n)) + Seqs.SumOver(StepBack(ds, if n == 0 then 0 else n - 1), FaceValue)
  {
    if n > 0 {
      var m := if n < 2 then 0 else n - 2;
      SlicesMatchWeights(ds, n - 1);
      assert ds[..n][..n - 1] == ds[..n - 1];
      assert ds[..n][n - 1] == ds[n - 1];
      assert StepBack(ds, n) == [ds[n - 1]] + StepBack(ds, m);
      assert (if n - 1 == 0 then 0 else n - 2) == m;
    }
  }

  /** Replacing the digit at index `i` changes only that digit's contribution. */
  lemma {:induction false} WeightedSumUpdate(ds: seq<nat>, odd: bool, i: nat, d: nat)
    requires i < |ds|
    ensures WeightedSum(ds[i := d], odd) + Contribution(ds[i], PlaceIsOdd(|ds|, i, odd))
         == WeightedSum(ds, odd) + Contribution(d, PlaceIsOdd(|ds|, i, odd))
    decreases |ds|
  {
    var n := |ds|;
    var ds' := ds[i := d];
    if i == n - 1 {
      assert ds'[..n - 1] == ds[..n - 1];
    } else {
      assert ds'[..n - 1] == ds[..n - 1][i := d];
      WeightedSumUpdate(ds[..n - 1], !odd, i, d);
    }
  }

  /** Whether index `i` of an `n`-digit string sits at an odd place from the
      right, when the rightmost place is odd exactly if `odd` holds. */
  function PlaceIsOdd(n: nat, i: nat, odd: bool): bool
    requires i < n
  {
    if (n - 1 - i) % 2 == 0 then odd else !odd
  }

  /** Distinct digits have distinct contributions below ten. */
  lemma ContributionInjective(a: nat, b: nat, odd: bool)
    requires a <= 9 && b <= 9 && a != b
    ensures Contribution(a, odd) <= 9 && Contribution(b, odd) <= 9
    ensures Contribution(a, odd) != Contribution(b, odd)
  {
    if !odd && 2 * a > 9 && 2 * b <= 9 {
      assert (2 * a - 9) % 2 == 1 && (2 * b) % 2 == 0;
    } else if !odd && 2 * a <= 9 && 2 * b > 9 {
      assert (2 * b - 9) % 2 == 1 && (2 * a) % 2 == 0;
    }
  }

  lemma DigitsOfUpdate(s: string, i: nat, c: char)
    requires IsDigitString(s) && i < |s| && IsDigit(c)
    ensures IsDigitString(s[i := c])
    ensures DigitsOf(s[i := c]) == DigitsOf(s)[i := DigitValue(c)]
  {
  }

  /** Moving a multiple of ten by a non-zero amount under ten in size leaves
      the multiples of ten. */
  lemma NonZeroShift(w: int, diff: int)
    requires w % 10 == 0 && -9 <= diff <= 9 && diff != 0
    ensures (w + diff) % 10 != 0
  {
    var q := w / 10;
    assert w == 10 * q;
    if 0 < diff {
      assert w + diff == 10 * q + diff;
    } else {
      assert w + diff == 10 * (q - 1) + (10 + diff);
    }
  }

  /** A SIRET that passes the check stops passing when any single digit is
      mistyped: the property the checksum exists for. */
  lemma SingleDigitErrorDetected(s: string, i: nat, c: char)
    requires IsDigitString(s) && i < |s| && IsDigit(c) && c != s[i]
    requires LuhnCheck(s)
    ensures IsDigitString(s[i := c])
    ensures !LuhnCheck(s[i := c])
  {
    var t := s[i := c];
    DigitsOfUpdate(s, i, c);
    var ds := DigitsOf(s);
    var dt := DigitsOf(t);
    var d := DigitValue(c);
    assert ds[i] == DigitValue(s[i]) != d;
    var odd := PlaceIsOdd(|ds|, i, true);
    WeightedSumUpdate(ds, true, i, d);
    ContributionInjective(ds[i], d, odd);
    var diff: int := Contribution(d, odd) - Contribution(ds[i], odd);
    assert WeightedSum(dt, true) == WeightedSum(ds, true) + diff;
    NonZeroShift(WeightedSum(ds, true), diff);
  }

  /** The checksum of a fourteen-digit number, written out place by place. */
  lemma ChecksumOfFourteen(ds: seq<nat>)
    requires |ds| == 14
    ensures Checksum(ds) == (ds[13] + ds[11] + ds[9] + ds[7] + ds[5] + ds[3] + ds[1]
      + DoubledDigitSum(ds[12]) + DoubledDigitSum(ds[10]) + DoubledDigitSum(ds[8]) + DoubledDigitSum(ds[6]) + DoubledDigitSum(ds[4]) + DoubledDigitSum(ds[2]) + DoubledDigitSum(ds[0])) % 10
  {
    OddPlacesOfFourteen(ds);
    EvenPlacesOfFourteen(ds);
  }

  lemma OddPlacesOfFourteen(ds: seq<nat>)
    requires |ds| == 14
    ensures Seqs.SumOver(StepBack(ds, 14), FaceValue) == ds[13] + ds[11] + ds[9] + ds[7] + ds[5] + ds[3] + ds[1]
  {
    assert StepBack(ds, 2) == [ds[1]] + StepBack(ds, 0);
    assert Seqs.SumOver(StepBack(ds, 2), FaceValue) == ds[1] + Seqs.SumOver(StepBack(ds, 0), FaceValue);
    assert StepBack(ds, 4) == [ds[3]] + StepBack(ds, 2);
    assert Seqs.SumOver(StepBack(ds, 4), FaceValue) == ds[3] + Seqs.SumOver(StepBack(ds, 2), FaceValue);
    assert StepBack(ds, 6) == [ds[5]] + StepBack(ds, 4);
    assert Seqs.SumOver(StepBack(ds, 6), FaceValue) == ds[5] + Seqs.SumOver(StepBack(ds, 4), FaceValue);
    assert StepBack(ds, 8) == [ds[7]] + StepBack(ds, 6);
    assert Seqs.SumOver(StepBack(ds, 8), FaceValue) == ds[7] + Seqs.SumOver(StepBack(ds, 6), FaceValue);
    assert StepBack(ds, 10) == [ds[9]] + StepBack(ds, 8);
    assert Seqs.SumOver(StepBack(ds, 10), FaceValue) == ds[9] + Seqs.SumOver(StepBack(ds, 8), FaceValue);
    assert StepBack(ds, 12) == [ds[11]] + StepBack(ds, 10);
    assert Seqs.SumOver(StepBack(ds, 12), FaceValue) == ds[11] + Seqs.SumOver(StepBack(ds, 10), FaceValue);
    assert StepBack(ds, 14) == [ds[13]] + StepBack(ds, 12);
    assert Seqs.SumOver(StepBack(ds, 14), FaceValue) == ds[13] + Seqs.SumOver(StepBack(ds, 12), FaceValue);
  }

  lemma EvenPlacesOfFourteen(ds: seq<nat>)
    requires |ds| == 14
    ensures SumDoubled(StepBack(ds, 13)) == DoubledDigitSum(ds[12]) + DoubledDigitSum(ds[10]) + DoubledDigitSum(ds[8]) + DoubledDigitSum(ds[6]) + DoubledDigitSum(ds[4]) + DoubledDigitSum(ds[2]) + DoubledDigitSum(ds[0])
  {
    assert StepBack(ds, 1) == [ds[0]] + StepBack(ds, 0);
    assert SumDoubled(StepBack(ds, 1)) == DoubledDigitSum(ds[0]) + SumDoubled(StepBack(ds, 0));
    assert StepBack(ds, 3) == [ds[2]] + StepBack(ds, 1);
    assert SumDoubled(StepBack(ds, 3)) == DoubledDigitSum(ds[2]) + SumDoubled(StepBack(ds, 1));
    assert StepBack(ds, 5) == [ds[4]] + StepBack(ds, 3);
    assert SumDoubled(StepBack(ds, 5)) == DoubledDigitSum(ds[4]) + SumDoubled(StepBack(ds, 3));
    assert StepBack(ds, 7) == [ds[6]] + StepBack(ds, 5);
    assert SumDoubled(StepBack(ds, 7)) == DoubledDigitSum(ds[6]) + SumDoubled(StepBack(ds, 5));
    assert StepBack(ds, 9) == [ds[8]] + StepBack(ds, 7);
    assert SumDoubled(StepBack(ds, 9)) == DoubledDigitSum(ds[8]) + SumDoubled(StepBack(ds, 7));
    assert StepBack(ds, 11) == [ds[10]] + StepBack(ds, 9);
    assert SumDoubled(StepBack(ds, 11)) == DoubledDigitSum(ds[10]) + SumDoubled(StepBack(ds, 9));
    assert StepBack(ds, 13) == [ds[12]] + StepBack(ds, 11);
    assert SumDoubled(StepBack(ds, 13)) == DoubledDigitSum(ds[12]) + SumDoubled(StepBack(ds, 11));
  }

  /** A SIRET whose checksum holds. */
  lemma ValidSiretExample()
    ensures IsDigitString("73282932000074") && LuhnCheck("73282932000074")
  {
    ValidExampleDigits();
    ValidExampleChecksum();
  }

  lemma ValidExampleChecksum()
    ensures Checksum([7, 3, 2, 8, 2, 9, 3, 2, 0, 0, 0, 0, 7, 4]) == 0
  {
    var ds: seq<nat> := [7, 3, 2, 8, 2, 9, 3, 2, 0, 0, 0, 0, 7, 4];
    ChecksumOfFourteen(ds);
    assert DoubledDigitSum(7) + DoubledDigitSum(0) + DoubledDigitSum(0) + DoubledDigitSum(3)
      + DoubledDigitSum(2) + DoubledDigitSum(2) + DoubledDigitSum(7) == 24;
  }

  lemma ValidExampleDigits()
    ensures IsDigitString("73282932000074")
    ensures DigitsOf("73282932000074") == [7, 3, 2, 8, 2, 9, 3, 2, 0, 0, 0, 0, 7, 4]
  {
  }

  /** Fourteen digits whose checksum fails. */
  lemma InvalidSiretExample()
    ensures IsDigitString("12345678901234") && !LuhnCheck("12345678901234")
  {
    InvalidExampleDigits();
    InvalidExampleChecksum();
  }

  lemma InvalidExampleChecksum()
    ensures Checksum([1, 2, 3, 4, 5, 6, 7, 8, 9, 0, 1, 2, 3, 4]) == 7
  {
    var ds: seq<nat> := [1, 2, 3, 4, 5, 6, 7, 8, 9, 0, 1, 2, 3, 4];
    ChecksumOfFourteen(ds);
    assert DoubledDigitSum(3) + DoubledDigitSum(1) + DoubledDigitSum(9) + DoubledDigitSum(7)
      + DoubledDigitSum(5) + DoubledDigitSum(3) + DoubledDigitSum(1) == 31;
  }

  lemma InvalidExampleDigits()
    ensures IsDigitString("12345678901234")
    ensures DigitsOf("12345678901234") == [1, 2, 3, 4, 5, 6, 7, 8, 9, 0, 1, 2, 3, 4]
  {
  }
}
