/**
 The Luhn check on card numbers (src/ai/model-armor.ts), digits weighted from the right. A character that
 is no digit parses as NaN, which makes the sum NaN and the check fail.
 */
module Luhn {
  import opened Wrappers
  import opened JsStrings

  function DigitChar(v: nat): (c: char)
    requires v < 10
    ensures IsDigit(c) && DigitValue(c) == v
  {
    '0' + v as char
  }

  /** `parseInt` of one character; None is NaN. */
  function ParseDigit(c: char): Option<nat> {
    if IsDigit(c) then Some(DigitValue(c)) else None
  }

  /** What a digit adds to the sum: itself, or the digit sum of its double. */
  function Weight(v: nat, doubled: bool): (w: nat)
    requires v < 10
    ensures w < 10
  {
    if !doubled then v else if 2 * v > 9 then 2 * v - 9 else 2 * v
  }

  predicate Digits(s: string) {
    forall i :: 0 <= i < |s| ==> IsDigit(s[i])
  }

  /** Every second digit from the right is doubled, starting with the last but one. */
  predicate Doubled(s: string, i: int) {
    (|s| - 1 - i) % 2 == 1
  }

  /** The weighted sum of the digits from position `from` on. */
  function Sum(s: string, from: nat): nat
    requires from <= |s| && forall i :: from <= i < |s| ==> IsDigit(s[i])
    decreases |s| - from
  {
    if from == |s| then 0 else Weight(DigitValue(s[from]), Doubled(s, from)) + Sum(s, from + 1)
  }

  predicate Passes(s: string) {
    Digits(s) && Sum(s, 0) % 10 == 0
  }

  /** The loop from the last character to the first; a sum of None is NaN. */
  method PassesLuhnCheck(cardNumber: string) returns (passes: bool)
    ensures passes == Passes(cardNumber)
  {
    var sum: Option<nat> := Some(0);
    var shouldDouble := false;
    var i := |cardNumber|;
    while i > 0
      invariant 0 <= i <= |cardNumber|
      invariant shouldDouble == Doubled(cardNumber, i - 1)
      invariant sum.Some? <==> forall j :: i <= j < |cardNumber| ==> IsDigit(cardNumber[j])
      invariant sum.Some? ==> sum.value == Sum(cardNumber, i)
    {
      i := i - 1;
      var digit := ParseDigit(cardNumber[i]);
      if digit.Some? && shouldDouble {
        digit := Some(2 * digit.value);
        if digit.value > 9 { digit := Some(digit.value - 9); }
      }
      sum := if sum.Some? && digit.Some? then Some(sum.value + digit.value) else None;
      shouldDouble := !shouldDouble;
    }
    return sum.Some? && sum.value % 10 == 0;
  }

  /** The value a digit character stands for, and the digit sum of its double. */
  function Plain(c: char): int {
    c as int - '0' as int
  }

  function DigitSumOfDouble(c: char): int {
    2 * Plain(c) / 10 + 2 * Plain(c) % 10
  }

  /** The reference: of the last `n` digits, the first, third, ... from the right count plainly, the others doubled. */
  function FromTheRight(s: string, n: nat): int
    requires n <= |s|
  {
    if n == 0 then 0
    else
      var c := s[|s| - n];
      FromTheRight(s, n - 1) + if n % 2 == 1 then Plain(c) else DigitSumOfDouble(c)
  }

  lemma {:induction false} SumIsFromTheRight(s: string, n: nat)
    requires Digits(s) && n <= |s|
    ensures Sum(s, |s| - n) == FromTheRight(s, n)
  {
    if n != 0 {
      SumIsFromTheRight(s, n - 1);
      WeightIsPlain(s[|s| - n]);
    }
  }

  lemma WeightIsPlain(c: char)
    requires IsDigit(c)
    ensures Weight(DigitValue(c), false) == Plain(c) && Weight(DigitValue(c), true) == DigitSumOfDouble(c)
  {
  }

  /** A number passes exactly when it is all digits and the reference sum is a multiple of ten. */
  lemma {:induction false} PassesIsTheReference(s: string)
    ensures Passes(s) <==> (forall i :: 0 <= i < |s| ==> '0' <= s[i] <= '9') && FromTheRight(s, |s|) % 10 == 0
  {
    if Digits(s) { SumIsFromTheRight(s, |s|); }
  }

  // ---------------------------------------------------------------- what the check detects

  lemma {:induction false} SumAfterChange(s: string, t: string, i: nat, from: nat)
    requires Digits(s) && Digits(t) && |s| == |t| && i < |s| && from <= |s|
    requires forall j :: 0 <= j < |s| && j != i ==> s[j] == t[j]
    ensures Sum(t, from) - Sum(s, from) ==
              if from <= i then Weight(DigitValue(t[i]), Doubled(s, i)) - Weight(DigitValue(s[i]), Doubled(s, i)) else 0
    decreases |s| - from
  {
    if from < |s| { SumAfterChange(s, t, i, from + 1); }
  }

  /** Changing exactly one character of a passing number makes it fail, whatever it is changed to. */
  lemma {:induction false} OneChangeIsDetected(s: string, i: nat, c: char)
    requires Passes(s) && i < |s| && c != s[i]
    ensures !Passes(s[i := c])
  {
    var t := s[i := c];
    if Digits(t) {
      SumAfterChange(s, t, i, 0);
      assert c == t[i] && DigitValue(c) != DigitValue(s[i]);
      DifferentWeights(DigitValue(s[i]), DigitValue(c), Doubled(s, i), Sum(s, 0), Sum(t, 0));
    } else {
      assert !IsDigit(t[i]) || exists j :: 0 <= j < |t| && j != i && !IsDigit(t[j]);
    }
  }

  lemma {:induction false} DifferentWeights(v: nat, w: nat, doubled: bool, before: int, after: int)
    requires v < 10 && w < 10 && v != w && before % 10 == 0
    requires after - before == Weight(w, doubled) - Weight(v, doubled)
    ensures after % 10 != 0
  {
    assert Weight(v, doubled) != Weight(w, doubled);
    SmallDifference(before, after - before);
  }

  function Swapped(s: string, i: nat): (t: string)
    requires i + 1 < |s|
    ensures |t| == |s| && t[i] == s[i + 1] && t[i + 1] == s[i]
    ensures forall j :: 0 <= j < |s| && j != i && j != i + 1 ==> t[j] == s[j]
  {
    s[i := s[i + 1]][i + 1 := s[i]]
  }

  lemma {:induction false} DoublingAlternates(s: string, i: int)
    ensures Doubled(s, i + 1) == !Doubled(s, i)
  {
  }

  lemma {:induction false} SumUnfolds(s: string, from: nat)
    requires Digits(s) && from < |s|
    ensures Sum(s, from) == Weight(DigitValue(s[from]), Doubled(s, from)) + Sum(s, from + 1)
  {
  }

  lemma {:induction false} SwappedDigits(s: string, i: nat)
    requires i + 1 < |s|
    ensures Digits(Swapped(s, i)) <==> Digits(s)
  {
    var t := Swapped(s, i);
    assert Digits(s) ==> forall j :: 0 <= j < |t| ==> IsDigit(t[j]);
    assert Digits(t) ==> IsDigit(t[i]) && IsDigit(t[i + 1]) && forall j :: 0 <= j < |s| && j != i && j != i + 1 ==>
           t[j] == s[j];
  }

  lemma {:induction false} SumAfterSwap(s: string, i: nat, from: nat)
    requires i + 1 < |s| && Digits(s) && Digits(Swapped(s, i)) && from <= |s| && from != i + 1
    ensures var a, b, d := DigitValue(s[i]), DigitValue(s[i + 1]), Doubled(s, i);
            Sum(Swapped(s, i), from) - Sum(s, from) ==
              if from <= i then Weight(b, d) + Weight(a, !d) - Weight(a, d) - Weight(b, !d) else 0
    decreases |s| - from
  {
    hide Sum, Swapped, Weight, DigitValue, Digits;
    var t := Swapped(s, i);
    if from < |s| {
      SumUnfolds(s, from);
      SumUnfolds(t, from);
      if from == i {
        SumUnfolds(s, i + 1);
        SumUnfolds(t, i + 1);
        DoublingAlternates(s, i);
        SumAfterSwap(s, i, i + 2);
      } else {
        SumAfterSwap(s, i, from + 1);
      }
    } else {
      SumOfNothing(s);
      SumOfNothing(t);
    }
  }

  lemma {:induction false} SumOfNothing(s: string)
    requires Digits(s)
    ensures Sum(s, |s|) == 0
  {
  }

  /** Swapping two adjacent digits goes unnoticed exactly when they are equal, or are 0 and 9. */
  lemma {:induction false} SwapIsDetectedExactly(s: string, i: nat)
    requires Passes(s) && i + 1 < |s|
    ensures Passes(Swapped(s, i)) <==> s[i] == s[i + 1] || {s[i], s[i + 1]} == {'0', '9'}
  {
    SwappedDigits(s, i);
    SumAfterSwap(s, i, 0);
    var a, b := DigitValue(s[i]), DigitValue(s[i + 1]);
    SwappedWeights(a, b, Doubled(s, i), Sum(s, 0), Sum(Swapped(s, i), 0));
    assert {s[i], s[i + 1]} == {'0', '9'} <==> (s[i] == '0' && s[i + 1] == '9') || (s[i] == '9' && s[i + 1] == '0') by {
      if {s[i], s[i + 1]} == {'0', '9'} {
        assert s[i] in {'0', '9'} && s[i + 1] in {'0', '9'} && '0' in {s[i], s[i + 1]} && '9' in {s[i], s[i + 1]};
      }
    }
  }

  /** How much doubling adds; only 0 and 9 add the same. */
  function Gap(v: nat): (g: int)
    requires v < 10
    ensures g == Weight(v, true) - Weight(v, false)
    ensures -4 <= g <= 4
  {
    if v > 4 then v - 9 else v
  }

  lemma {:induction false} SwappedWeights(a: nat, b: nat, d: bool, before: int, after: int)
    requires a < 10 && b < 10 && before % 10 == 0
    requires after - before == Weight(b, d) + Weight(a, !d) - Weight(a, d) - Weight(b, !d)
    ensures after % 10 == 0 <==> a == b || (a == 0 && b == 9) || (a == 9 && b == 0)
  {
    hide Weight;
    var difference := if d then Gap(b) - Gap(a) else Gap(a) - Gap(b);
    assert after == before + difference;
    SmallDifference(before, difference);
  }

  lemma {:induction false} SmallDifference(before: int, difference: int)
    requires before % 10 == 0 && -10 < difference < 10
    ensures (before + difference) % 10 == 0 <==> difference == 0
  {
  }

  lemma {:induction false} SumOfAppended(p: string, c: char, c': char, from: nat)
    requires Digits(p) && IsDigit(c) && IsDigit(c') && from <= |p|
    ensures Sum(p + [c], from) - Sum(p + [c'], from) == DigitValue(c) - DigitValue(c')
    decreases |p| - from
  {
    if from < |p| {
      SumOfAppended(p, c, c', from + 1);
    } else {
      assert Sum(p + [c], |p|) == DigitValue(c) + Sum(p + [c], |p| + 1);
      assert Sum(p + [c'], |p|) == DigitValue(c') + Sum(p + [c'], |p| + 1);
    }
  }

  /** The digit that completes a prefix. */
  function CheckDigit(p: string): (c: char)
    requires Digits(p)
    ensures IsDigit(c)
  {
    DigitChar((10 - Sum(p + "0", 0) % 10) % 10)
  }

  lemma {:induction false} Completes(base: nat, v: nat)
    requires v < 10
    ensures (base + v) % 10 == 0 <==> v == (10 - base % 10) % 10
  {
  }

  /** Every prefix of digits is completed by exactly one character; any other prefix by none. */
  lemma {:induction false} OneCheckDigit(p: string, c: char)
    ensures Passes(p + [c]) <==> Digits(p) && c == CheckDigit(p)
  {
    hide Sum;
    if Digits(p) && IsDigit(c) {
      SumOfAppended(p, c, '0', 0);
      Completes(Sum(p + "0", 0), DigitValue(c));
      assert Sum(p + [c], 0) == Sum(p + "0", 0) + DigitValue(c);
      assert c == CheckDigit(p) <==> DigitValue(c) == DigitValue(CheckDigit(p));
    } else {
      assert (p + [c])[|p|] == c && forall i :: 0 <= i < |p| ==> (p + [c])[i] == p[i];
    }
  }
}
