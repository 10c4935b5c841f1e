/** The Luhn check (ISO/IEC 7812-1, Annex B) and the MOD 11-2 check (ISO/IEC 7064) of
    src/policy/guardrails.c:1871-1928. */
module Checksums {
  import opened Decimal

  function DigitOf(c: char): (d: int)
    requires IsDigit(c)
    ensures 0 <= d <= 9
  {
    c as int - '0' as int
  }

  ghost predicate AllDigits(s: string) {
    forall i :: 0 <= i < |s| ==> IsDigit(s[i])
  }

  // ---------- Luhn ----------

  /** What a digit contributes: itself, or the digit sum of its double. */
  function LuhnTerm(d: int, doubled: bool): int {
    if !doubled then d else if 2 * d > 9 then (2 * d) % 10 + 1 else 2 * d
  }

  /** The sum of the terms of s[i..]; the last digit is not doubled. */
  ghost function LuhnSum(s: string, i: nat): int
    requires AllDigits(s) && i <= |s|
    decreases |s| - i
  {
    if i == |s| then 0 else LuhnTerm(DigitOf(s[i]), (|s| - 1 - i) % 2 == 1) + LuhnSum(s, i + 1)
  }

  ghost predicate LuhnOk(s: string) {
    13 <= |s| <= 19 && AllDigits(s) && LuhnSum(s, 0) % 10 == 0
  }

  /** guardrails_validate_luhn. */
  method ValidateLuhn(digits: string) returns (ok: bool)
    ensures ok <==> LuhnOk(digits)
  {
    if |digits| < 13 || |digits| > 19 {
      return false;
    }
    for i := 0 to |digits|
      invariant forall j :: 0 <= j < i ==> IsDigit(digits[j])
    {
      if !IsDigit(digits[i]) {
        return false;
      }
    }
    var sum := 0;
    var alternate := false;
    for i := |digits| downto 0
      invariant sum == LuhnSum(digits, i) && sum >= 0
      invariant alternate <==> (|digits| - i) % 2 == 1
    {
      var n := DigitOf(digits[i]);
      if alternate {
        n := n * 2;
        if n > 9 {
          n := n % 10 + 1;
        }
      }
      sum := sum + n;
      alternate := !alternate;
    }
    return sum % 10 == 0;
  }

  lemma LuhnTermInjective(d: int, e: int, doubled: bool)
    requires 0 <= d <= 9 && 0 <= e <= 9 && d != e
    ensures 0 <= LuhnTerm(d, doubled) <= 9 && LuhnTerm(d, doubled) != LuhnTerm(e, doubled)
  {}

  lemma {:induction false} LuhnSumSame(s: string, t: string, i: nat)
    requires |s| == |t| && AllDigits(s) && AllDigits(t) && i <= |s| && s[i..] == t[i..]
    ensures LuhnSum(s, i) == LuhnSum(t, i)
    decreases |s| - i
  {
    if i < |s| {
      assert s[i] == s[i..][0] == t[i];
      assert s[i + 1..] == s[i..][1..] == t[i + 1..];
      LuhnSumSame(s, t, i + 1);
    }
  }

  /** Two digit strings that agree outside [i, k): their sums differ by what happens in between. */
  lemma {:induction false} LuhnSumPrefix(s: string, t: string, i: nat, k: nat)
    requires |s| == |t| && AllDigits(s) && AllDigits(t) && i <= k <= |s| && s[i..k] == t[i..k]
    ensures LuhnSum(s, i) - LuhnSum(s, k) == LuhnSum(t, i) - LuhnSum(t, k)
    decreases k - i
  {
    if i < k {
      assert s[i] == s[i..k][0] == t[i];
      assert s[i + 1..k] == s[i..k][1..] == t[i + 1..k];
      LuhnSumPrefix(s, t, i + 1, k);
    }
  }

  lemma LuhnSumSplit(s: string, t: string, i: nat, k: nat)
    requires |s| == |t| && AllDigits(s) && AllDigits(t) && i <= k <= |s|
    requires s[..i] == t[..i] && s[k..] == t[k..]
    ensures LuhnSum(s, 0) - LuhnSum(t, 0) == LuhnSum(s, i) - LuhnSum(t, i)
    ensures LuhnSum(s, k) == LuhnSum(t, k)
  {
    assert s[0..i] == s[..i] && t[0..i] == t[..i];
    LuhnSumPrefix(s, t, 0, i);
    LuhnSumSame(s, t, k);
  }

  lemma SameResidue(x: int, y: int)
    requires x % 10 == 0
    ensures y % 10 == 0 <==> (x - y) % 10 == 0
  {}

  /** The sums of s[i..], one and two terms unfolded. */
  lemma LuhnSumUnfold(s: string, i: nat)
    requires AllDigits(s) && i < |s|
    ensures var odd := (|s| - 1 - i) % 2 == 1;
      && LuhnSum(s, i) == LuhnTerm(DigitOf(s[i]), odd) + LuhnSum(s, i + 1)
      && (i + 1 < |s| ==>
            LuhnSum(s, i) == LuhnTerm(DigitOf(s[i]), odd) + LuhnTerm(DigitOf(s[i + 1]), !odd) + LuhnSum(s, i + 2))
  {
    hide LuhnTerm;
    assert i + 1 < |s| ==> ((|s| - 1 - (i + 1)) % 2 == 1 <==> !((|s| - 1 - i) % 2 == 1));
  }

  /** Changing one digit of an accepted number makes it rejected. */
  lemma LuhnDetectsOneDigit(s: string, i: nat, c: char)
    requires LuhnOk(s) && i < |s| && c != s[i]
    ensures !LuhnOk(s[i := c])
  {
    hide LuhnTerm, LuhnSum;
    var t := s[i := c];
    if IsDigit(c) {
      var odd := (|s| - 1 - i) % 2 == 1;
      LuhnSumSplit(s, t, i, i + 1);
      LuhnSumUnfold(s, i);
      LuhnSumUnfold(t, i);
      LuhnTermInjective(DigitOf(s[i]), DigitOf(c), odd);
      LuhnTermInjective(DigitOf(c), DigitOf(s[i]), odd);
      SameResidue(LuhnSum(s, 0), LuhnSum(t, 0));
    } else {
      assert t[i] == c;
    }
  }

  /** Swapping two adjacent digits of an accepted number is noticed exactly when they differ and are
      not 0 and 9. */
  lemma LuhnAdjacentSwap(s: string, i: nat)
    requires LuhnOk(s) && i + 1 < |s|
    ensures LuhnOk(s[i := s[i + 1]][i + 1 := s[i]])
            <==> s[i] == s[i + 1] || (s[i] == '0' && s[i + 1] == '9') || (s[i] == '9' && s[i + 1] == '0')
  {
    hide LuhnTerm, LuhnSum;
    var t := s[i := s[i + 1]][i + 1 := s[i]];
    LuhnSumSplit(s, t, i, i + 2);
    LuhnSumUnfold(s, i);
    LuhnSumUnfold(t, i);
    LuhnSwapTerms(DigitOf(s[i]), DigitOf(s[i + 1]), (|s| - 1 - i) % 2 == 1);
    SameResidue(LuhnSum(s, 0), LuhnSum(t, 0));
  }

  lemma LuhnSwapTerms(a: int, b: int, odd: bool)
    requires 0 <= a <= 9 && 0 <= b <= 9
    ensures (LuhnTerm(a, odd) + LuhnTerm(b, !odd) - LuhnTerm(b, odd) - LuhnTerm(a, !odd)) % 10 == 0
            <==> a == b || (a == 0 && b == 9) || (a == 9 && b == 0)
  {
    hide LuhnTerm;
    DoublingAdds(a);
    DoublingAdds(b);
  }

  /** What doubling adds to a digit's term. */
  lemma DoublingAdds(d: int)
    requires 0 <= d <= 9
    ensures LuhnTerm(d, true) - LuhnTerm(d, false) == if d <= 4 then d else d - 9
  {}

  /** The sum counted from the right: every second digit is doubled, and a double of two digits counts as both. */
  ghost function SumFromRight(s: string, n: nat): int
    requires AllDigits(s) && n <= |s|
  {
    if n == 0 then 0
    else
      var d := s[|s| - n] as int - '0' as int;
      SumFromRight(s, n - 1) + if n % 2 == 0 then 2 * d / 10 + 2 * d % 10 else d
  }

  lemma TermIsDigitSum(d: int, doubled: bool)
    requires 0 <= d <= 9
    ensures LuhnTerm(d, doubled) == if doubled then 2 * d / 10 + 2 * d % 10 else d
  {}

  lemma {:induction false} LuhnIsFromRight(s: string, n: nat)
    requires AllDigits(s) && n <= |s|
    ensures LuhnSum(s, |s| - n) == SumFromRight(s, n)
  {
    hide LuhnTerm;
    if n > 0 {
      LuhnIsFromRight(s, n - 1);
      TermIsDigitSum(DigitOf(s[|s| - n]), n % 2 == 0);
    }
  }

  /** What is accepted, in the terms of the standard. */
  lemma LuhnExactly(s: string)
    ensures LuhnOk(s) <==> 13 <= |s| <= 19 && AllDigits(s) && SumFromRight(s, |s|) % 10 == 0
    ensures LuhnOk("4111111111111111")
  {
    hide LuhnSum, SumFromRight;
    if AllDigits(s) { LuhnIsFromRight(s, |s|); }
    var card := "4111111111111111";
    SumsFromRight(card);
    LuhnIsFromRight(card, 16);
  }

  lemma SumsFromRight(s: string)
    requires s == "4111111111111111"
    ensures SumFromRight(s, 16) == 30
  {
    assert forall i :: 1 <= i < 16 ==> s[i] == '1';
    assert SumFromRight(s, 1) == 1;
    assert SumFromRight(s, 2) == 3;
    assert SumFromRight(s, 4) == 6;
    assert SumFromRight(s, 6) == 9;
    assert SumFromRight(s, 8) == 12;
    assert SumFromRight(s, 10) == 15;
    assert SumFromRight(s, 12) == 18;
    assert SumFromRight(s, 14) == 21;
  }

  // ---------- MOD 11-2 ----------

  const WEIGHTS: seq<int> := [7, 9, 10, 5, 8, 4, 2, 1, 6, 3, 7, 9, 10, 5, 8, 4, 2]

  const CHECK_CHARS: seq<char> := ['1', '0', 'X', '9', '8', '7', '6', '5', '4', '3', '2']

  ghost function WeightedSum(s: string, i: nat): int
    requires i <= 17 && i <= |s| && forall j :: 0 <= j < i ==> IsDigit(s[j])
  {
    if i == 0 then 0 else WeightedSum(s, i - 1) + DigitOf(s[i - 1]) * WEIGHTS[i - 1]
  }

  function Upper(c: char): char {
    if c == 'x' then 'X' else c
  }

  ghost predicate Mod11Ok(s: string) {
    && |s| == 18
    && (forall j :: 0 <= j < 17 ==> IsDigit(s[j]))
    && Upper(s[17]) == CHECK_CHARS[WeightedSum(s, 17) % 11]
  }

  /** guardrails_validate_id_card_mod11. */
  method ValidateIdCardMod11(id: string) returns (ok: bool)
    ensures ok <==> Mod11Ok(id)
  {
    if |id| != 18 {
      return false;
    }
    var sum := 0;
    for i := 0 to 17
      invariant forall j :: 0 <= j < i ==> IsDigit(id[j])
      invariant sum == WeightedSum(id, i)
    {
      if !IsDigit(id[i]) {
        return false;
      }
      sum := sum + DigitOf(id[i]) * WEIGHTS[i];
    }
    var mod := sum % 11;
    var expected := CHECK_CHARS[mod];
    var actual := id[17];
    if actual == 'x' {
      actual := 'X';
    }
    return actual == expected;
  }

  lemma {:induction false} WeightedSumAgree(s: string, t: string, i: nat, k: nat)
    requires i <= k <= 17 && k <= |s| == |t|
    requires forall j :: 0 <= j < k ==> IsDigit(s[j]) && IsDigit(t[j])
    requires forall j :: i <= j < k ==> s[j] == t[j]
    ensures WeightedSum(s, k) - WeightedSum(s, i) == WeightedSum(t, k) - WeightedSum(t, i)
  {
    if i < k { WeightedSumAgree(s, t, i, k - 1); }
  }

  /** Two strings of digits that agree outside [i, k) differ in their sums by what happens there. */
  lemma WeightedSumSplit(s: string, t: string, i: nat, k: nat)
    requires i <= k <= 17 && |s| == |t| == 18
    requires forall j :: 0 <= j < 17 ==> IsDigit(s[j]) && IsDigit(t[j])
    requires forall j :: 0 <= j < 17 && !(i <= j < k) ==> s[j] == t[j]
    ensures WeightedSum(s, 17) - WeightedSum(t, 17) == WeightedSum(s, k) - WeightedSum(t, k)
    ensures WeightedSum(s, i) == WeightedSum(t, i)
  {
    WeightedSumAgree(s, t, k, 17);
    WeightedSumAgree(s, t, 0, i);
  }

  lemma CheckCharsInjective(m: int, n: int)
    requires CHECK_CHARS[m % 11] == CHECK_CHARS[n % 11]
    ensures (m - n) % 11 == 0
  {}

  lemma WeightIsUnit(i: nat, d: int)
    requires i < 17 && -9 <= d <= 9 && d != 0
    ensures (d * WEIGHTS[i]) % 11 != 0
  {
    var w := WEIGHTS[i];
    assert w == 1 || w == 2 || w == 3 || w == 4 || w == 5 || w == 6 || w == 7 || w == 8 || w == 9 || w == 10;
  }

  /** Two sums that differ modulo 11 ask for different check characters. */
  lemma OtherCheckCharacter(s: string, t: string)
    requires Mod11Ok(s) && |t| == 18 && t[17] == s[17]
    requires forall j :: 0 <= j < 17 ==> IsDigit(t[j])
    requires (WeightedSum(s, 17) - WeightedSum(t, 17)) % 11 != 0
    ensures !Mod11Ok(t)
  {
    hide WeightedSum;
    if Mod11Ok(t) {
      CheckCharsInjective(WeightedSum(s, 17), WeightedSum(t, 17));
    }
  }

  lemma OneDigitDifference(s: string, t: string, i: nat)
    requires i < 17 && |s| == |t| == 18
    requires forall j :: 0 <= j < 17 ==> IsDigit(s[j]) && IsDigit(t[j])
    requires forall j :: 0 <= j < 17 && j != i ==> s[j] == t[j]
    ensures WeightedSum(s, 17) - WeightedSum(t, 17) == (DigitOf(s[i]) - DigitOf(t[i])) * WEIGHTS[i]
  {
    hide WeightedSum;
    WeightedSumSplit(s, t, i, i + 1);
    WeightedSumStep(s, i);
    WeightedSumStep(t, i);
    Distribute(DigitOf(s[i]), DigitOf(t[i]), WEIGHTS[i]);
  }

  lemma WeightedSumStep(s: string, i: nat)
    requires i < 17 && i < |s| && forall j :: 0 <= j <= i ==> IsDigit(s[j])
    ensures WeightedSum(s, i + 1) == WeightedSum(s, i) + DigitOf(s[i]) * WEIGHTS[i]
  {}

  lemma Distribute(a: int, b: int, w: int)
    ensures a * w - b * w == (a - b) * w
  {}

  /** Changing one character of an accepted number is noticed, but for the case of a final x. */
  lemma Mod11OneCharacter(s: string, i: nat, c: char)
    requires Mod11Ok(s) && i < 18 && c != s[i]
    ensures Mod11Ok(s[i := c]) <==> i == 17 && Upper(c) == Upper(s[17])
  {
    hide WeightedSum;
    var t := s[i := c];
    if i == 17 {
      WeightedSumAgree(s, t, 0, 17);
      WeightedSumZero(s);
      WeightedSumZero(t);
    } else if IsDigit(c) {
      OneDigitDifference(s, t, i);
      WeightIsUnit(i, DigitOf(s[i]) - DigitOf(c));
      OtherCheckCharacter(s, t);
    } else {
      assert t[i] == c;
    }
  }

  lemma WeightedSumZero(s: string)
    ensures WeightedSum(s, 0) == 0
  {}

  lemma SwapDifference(s: string, t: string, i: nat)
    requires i < 16 && |s| == |t| == 18
    requires forall j :: 0 <= j < 17 ==> IsDigit(s[j]) && IsDigit(t[j])
    requires forall j :: 0 <= j < 17 && j != i && j != i + 1 ==> s[j] == t[j]
    requires t[i] == s[i + 1] && t[i + 1] == s[i]
    ensures WeightedSum(s, 17) - WeightedSum(t, 17)
            == (DigitOf(s[i]) - DigitOf(s[i + 1])) * (WEIGHTS[i] - WEIGHTS[i + 1])
  {
    hide WeightedSum;
    WeightedSumSplit(s, t, i, i + 2);
    WeightedSumStep(s, i);
    WeightedSumStep(s, i + 1);
    WeightedSumStep(t, i);
    WeightedSumStep(t, i + 1);
    SwapProducts(DigitOf(s[i]), DigitOf(s[i + 1]), WEIGHTS[i], WEIGHTS[i + 1]);
  }

  lemma SwapProducts(a: int, b: int, v: int, w: int)
    ensures a * v + b * w - (b * v + a * w) == (a - b) * (v - w)
  {}

  /** Swapping two adjacent characters of an accepted number is noticed exactly when they differ. */
  lemma Mod11AdjacentSwap(s: string, i: nat)
    requires Mod11Ok(s) && i < 17
    ensures Mod11Ok(s[i := s[i + 1]][i + 1 := s[i]]) <==> s[i] == s[i + 1]
  {
    hide WeightedSum;
    var t := s[i := s[i + 1]][i + 1 := s[i]];
    if s[i] == s[i + 1] {
      assert t == s;
    } else if i < 16 {
      SwapDifference(s, t, i);
      NeighbourWeightsDiffer(i, DigitOf(s[i]) - DigitOf(s[i + 1]));
      OtherCheckCharacter(s, t);
    } else {
      SwapWithCheckCharacter(s, t);
    }
  }

  lemma NeighbourWeightsDiffer(i: nat, d: int)
    requires i < 16 && -9 <= d <= 9 && d != 0
    ensures (d * (WEIGHTS[i] - WEIGHTS[i + 1])) % 11 != 0
  {
    var w := WEIGHTS[i] - WEIGHTS[i + 1];
    assert w == -2 || w == -1 || w == 5 || w == -3 || w == 4 || w == 2 || w == 1 || w == -5 || w == 3 || w == -4;
  }

  /** The check character makes the weighted sum plus its own value one modulo 11. */
  lemma CheckValue(m: int, c: char)
    requires IsDigit(c)
    ensures CHECK_CHARS[m % 11] == c <==> (m + DigitOf(c)) % 11 == 1
  {
    assert CHECK_CHARS[m % 11] == c <==> (12 - m % 11) % 11 == DigitOf(c);
  }

  lemma SwapWithCheckCharacter(s: string, t: string)
    requires Mod11Ok(s) && t == s[16 := s[17]][17 := s[16]] && s[16] != s[17]
    ensures !Mod11Ok(t)
  {
    if IsDigit(s[17]) {
      WeightedSumSplit(s, t, 16, 17);
      var a, c := DigitOf(s[16]), DigitOf(s[17]);
      assert WeightedSum(t, 17) - WeightedSum(s, 17) == 2 * (c - a);
      CheckValue(WeightedSum(s, 17), s[17]);
      CheckValue(WeightedSum(t, 17), t[17]);
    } else {
      assert t[16] == s[17];
    }
  }

  // ---------- MOD 11-2 as the standard has it ----------

  /** Doubling after each digit, from the left. */
  ghost function Doubling(s: string, i: nat): int
    requires i <= |s| && forall j :: 0 <= j < i ==> IsDigit(s[j])
  {
    if i == 0 then 0 else 2 * (Doubling(s, i - 1) + (s[i - 1] as int - '0' as int))
  }

  /** The power of two that place i still gets, modulo 11. */
  function Weight(i: nat): int {
    if i < 17 then WEIGHTS[i] else 1
  }

  lemma WeightHalves(i: nat)
    requires i < 17
    ensures 2 * Weight(i + 1) == Weight(i) || 2 * Weight(i + 1) == Weight(i) + 11
  {}

  lemma DoublingStep(sum: int, h: int, d: int, w: int, v: int)
    requires 2 * v == w || 2 * v == w + 11
    requires (sum - h * w) % 11 == 0
    ensures (sum + d * w - 2 * (h + d) * v) % 11 == 0
  {
    var x := h + d;
    assert 2 * x * v == x * (2 * v);
    assert sum + d * w - x * w == sum - h * w;
    if 2 * v != w {
      assert x * (w + 11) == x * w + 11 * x;
    }
  }

  lemma {:induction false} WeightedIsDoubling(s: string, i: nat)
    requires i <= 17 && i <= |s| && forall j :: 0 <= j < i ==> IsDigit(s[j])
    ensures (WeightedSum(s, i) - Doubling(s, i) * Weight(i)) % 11 == 0
  {
    hide Weight;
    if i > 0 {
      WeightedIsDoubling(s, i - 1);
      WeightHalves(i - 1);
      WeightOf(i - 1);
      DoublingStep(WeightedSum(s, i - 1), Doubling(s, i - 1), DigitOf(s[i - 1]), Weight(i - 1), Weight(i));
    }
  }

  lemma WeightOf(i: nat)
    requires i < 17
    ensures Weight(i) == WEIGHTS[i]
  {}

  /** What is accepted, in the terms of the standard: the check character, X for ten, makes the sum one modulo 11. */
  lemma Mod11Exactly(s: string)
    ensures Mod11Ok(s)
      <==> |s| == 18 && (forall j :: 0 <= j < 17 ==> IsDigit(s[j]))
           && (if s[17] == 'X' || s[17] == 'x' then Doubling(s, 17) % 11 == 2
               else IsDigit(s[17]) && (Doubling(s, 17) + (s[17] as int - '0' as int)) % 11 == 1)
    ensures Mod11Ok("11010519491231002X")
  {
    hide WeightedSum, Doubling, Weight, Upper;
    if |s| == 18 && forall j :: 0 <= j < 17 ==> IsDigit(s[j]) {
      WeightedIsDoubling(s, 17);
      LastWeight();
      Residues(WeightedSum(s, 17), Doubling(s, 17));
      CheckExactly(WeightedSum(s, 17), s[17]);
      CheckResidue(WeightedSum(s, 17), Doubling(s, 17), s[17]);
    }
    KnownNumber();
  }

  lemma LastWeight()
    ensures Weight(17) == 1
  {}

  lemma Residues(a: int, b: int)
    requires (a - b * 1) % 11 == 0
    ensures a % 11 == b % 11
  {}

  lemma CheckResidue(a: int, b: int, c: char)
    requires a % 11 == b % 11
    ensures (a + (c as int - '0' as int)) % 11 == (b + (c as int - '0' as int)) % 11
  {}

  lemma CheckExactly(m: int, c: char)
    ensures Upper(c) == CHECK_CHARS[m % 11]
      <==> if c == 'X' || c == 'x' then m % 11 == 2
           else IsDigit(c) && (m + (c as int - '0' as int)) % 11 == 1
  {
    if IsDigit(c) { CheckValue(m, c); }
  }

  lemma KnownNumber()
    ensures Mod11Ok("11010519491231002X")
  {
    var id := "11010519491231002X";
    assert WeightedSum(id, 4) == 7 + 9 + 5;
    assert WeightedSum(id, 8) == 21 + 8 * 0 + 4 * 5 + 2 * 1 + 1 * 9;
    assert WeightedSum(id, 12) == 52 + 6 * 4 + 3 * 9 + 7 * 1 + 9 * 2;
    assert WeightedSum(id, 17) == 128 + 10 * 3 + 5 * 1 + 8 * 0 + 4 * 0 + 2 * 2;
  }
}
