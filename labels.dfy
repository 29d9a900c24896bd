/**
 * Numbering labels of the outline: `markerFor` chooses a style by nesting
 * depth; `toAlpha` writes bijective base-26 letters; `toRoman` writes
 * subtractive Roman numerals.
 */
module Labels {
  import opened Text

  // ----- toAlpha -----

  predicate IsUpperLetter(c: char) { 'A' <= c <= 'Z' }

  predicate AllUpper(s: string)
  {
    forall i :: 0 <= i < |s| ==> IsUpperLetter(s[i])
  }

  function Letter(k: int): (c: char)
    requires 0 <= k < 26
    ensures IsUpperLetter(c)
  {
    (65 + k) as char
  }

  /** Bijective base-26 numeral of `n` over A-Z (no letter for zero); "" when n <= 0. */
  function AlphaDigits(n: int): (s: string)
    ensures AllUpper(s)
    ensures s == [] <==> n <= 0
  {
    if n <= 0 then [] else AlphaDigits((n - 1) / 26) + [Letter((n - 1) % 26)]
  }

  /** The number a bijective base-26 numeral denotes: A = 1, ..., Z = 26, AA = 27. */
  function AlphaValue(s: string): (v: nat)
    requires AllUpper(s)
    ensures v == 0 <==> s == []
  {
    if s == [] then 0
    else 26 * AlphaValue(s[..|s| - 1]) + ((s[|s| - 1] - 'A') as int + 1)
  }

  lemma {:induction false} AlphaDigitsRoundTrip(n: nat)
    ensures AlphaValue(AlphaDigits(n)) == n
  {
    if n > 0 {
      var s := AlphaDigits(n);
      assert s[..|s| - 1] == AlphaDigits((n - 1) / 26);
      AlphaDigitsRoundTrip((n - 1) / 26);
    }
  }

  lemma {:induction false} AlphaValueRoundTrip(s: string)
    requires AllUpper(s)
    ensures AlphaDigits(AlphaValue(s)) == s
  {
    if s != [] {
      var init := s[..|s| - 1];
      var k := (s[|s| - 1] - 'A') as int;
      var v := AlphaValue(s);
      assert v == 26 * AlphaValue(init) + k + 1;
      assert (v - 1) / 26 == AlphaValue(init) && (v - 1) % 26 == k;
      AlphaValueRoundTrip(init);
      assert s == init + [s[|s| - 1]];
    }
  }

  /** Distinct positions get distinct letter labels. */
  lemma AlphaDigitsInjective(m: nat, n: nat)
    requires AlphaDigits(m) == AlphaDigits(n)
    ensures m == n
  {
    AlphaDigitsRoundTrip(m);
    AlphaDigitsRoundTrip(n);
  }

  lemma AlphaDigitsExamples()
    ensures AlphaDigits(1) == "A" && AlphaDigits(26) == "Z" && AlphaDigits(27) == "AA"
    ensures AlphaDigits(52) == "AZ" && AlphaDigits(53) == "BA" && AlphaDigits(702) == "ZZ"
  {
  }

  /** `toAlpha(n, upper)`: peel off one letter per round, least significant first. */
  method ToAlpha(n: int, upper: bool) returns (r: string)
    ensures upper ==> r == AlphaDigits(n)
    ensures !upper ==> r == ToLower(AlphaDigits(n))
  {
    var s := "";
    var k := n;
    while k > 0
      invariant AlphaDigits(n) == AlphaDigits(k) + s
    {
      k := k - 1;
      s := [Letter(k % 26)] + s;
      k := k / 26;
    }
    r := if upper then s else ToLower(s);
  }

  // ----- toRoman -----

  /** The value of row `i` of `toRoman`'s table. */
  function RomanValue(i: nat): int
    requires i < 13
  {
    match i
    case 0 => 1000 case 1 => 900 case 2 => 500 case 3 => 400
    case 4 => 100 case 5 => 90 case 6 => 50 case 7 => 40
    case 8 => 10 case 9 => 9 case 10 => 5 case 11 => 4
    case _ => 1
  }

  /** The symbol of row `i` of `toRoman`'s table. */
  function RomanSymbol(i: nat): string
    requires i < 13
  {
    match i
    case 0 => "M" case 1 => "CM" case 2 => "D" case 3 => "CD"
    case 4 => "C" case 5 => "XC" case 6 => "L" case 7 => "XL"
    case 8 => "X" case 9 => "IX" case 10 => "V" case 11 => "IV"
    case _ => "I"
  }

  /** The greedy conversion of `toRoman`, continuing from table row `i`. */
  function Greedy(num: int, i: nat): string
    requires i <= 13
    decreases 13 - i, num
  {
    if i == 13 then ""
    else if num >= RomanValue(i) then RomanSymbol(i) + Greedy(num - RomanValue(i), i)
    else Greedy(num, i + 1)
  }

  /** `toRoman(n)`: the greedy numeral, or "I" when it is empty. */
  function Roman(n: int): string
  {
    var r := Greedy(n, 0);
    if r == "" then "I" else r
  }

  method ToRoman(n: int) returns (res: string)
    ensures res == Roman(n)
  {
    res := "";
    var num := n;
    for i := 0 to 13
      invariant res + Greedy(num, i) == Greedy(n, 0)
    {
      while num >= RomanValue(i)
        invariant res + Greedy(num, i) == Greedy(n, 0)
      {
        res := res + RomanSymbol(i);
        num := num - RomanValue(i);
      }
    }
    if res == "" {
      res := "I";
    }
  }

  function Repeat(s: string, k: nat): string
  {
    if k == 0 then "" else s + Repeat(s, k - 1)
  }

  /** One decimal digit in subtractive notation, given the symbols for 1, 5 and 10 units. */
  function DecadeNumeral(q: int, one: string, five: string, ten: string): string
    requires 0 <= q <= 9
  {
    if q == 9 then one + ten
    else if q >= 5 then five + Repeat(one, q - 5)
    else if q == 4 then one + five
    else Repeat(one, q)
  }

  /** Standard subtractive Roman numeral: thousands as M's, then each decimal digit. */
  function StandardRoman(n: nat): string
  {
    Repeat("M", n / 1000)
    + DecadeNumeral(n % 1000 / 100, "C", "D", "M")
    + DecadeNumeral(n % 100 / 10, "X", "L", "C")
    + DecadeNumeral(n % 10, "I", "V", "X")
  }

  lemma {:induction false} GreedySkip(num: int, i: nat, j: nat)
    requires i <= j <= 13 && (j > i ==> num < RomanValue(j - 1))
    ensures Greedy(num, i) == Greedy(num, j)
    decreases j - i
  {
    if i < j {
      assert num < RomanValue(i);
      GreedySkip(num, i + 1, j);
    }
  }

  lemma Assoc(a: string, b: string, c: string)
    ensures a + (b + c) == a + b + c
  {
  }

  lemma MulSub(a: int, b: int, u: int)
    ensures (a - b) * u == a * u - b * u
  {
  }

  lemma RomanValuePositive(j: nat)
    requires j < 13
    ensures RomanValue(j) >= 1
  {
  }

  lemma StepArith(rest: int, k: nat, v: int)
    requires rest >= 0 && k >= 1 && v >= 1
    ensures rest + k * v >= v && rest + k * v - v == rest + (k - 1) * v
  {
    MulLe(1, k, v);
    MulSub(k, 1, v);
  }

  /** `k` copies of row `j`'s value above a remainder smaller than it are written as `k` symbols. */
  lemma {:induction false} GreedyRepeatsFrom(rest: int, j: nat, k: nat)
    requires j < 13 && 0 <= rest < RomanValue(j)
    ensures Greedy(rest + k * RomanValue(j), j) == Repeat(RomanSymbol(j), k) + Greedy(rest, j + 1)
  {
    var v, sym := RomanValue(j), RomanSymbol(j);
    if k > 0 {
      RomanValuePositive(j);
      StepArith(rest, k, v);
      GreedyRepeatsFrom(rest, j, k - 1);
      var tail := Greedy(rest, j + 1);
      Assoc(sym, Repeat(sym, k - 1), tail);
    }
  }

  lemma GreedyRepeats(num: int, j: nat, k: nat)
    requires j < 13 && k * RomanValue(j) <= num < (k + 1) * RomanValue(j)
    ensures Greedy(num, j) == Repeat(RomanSymbol(j), k) + Greedy(num - k * RomanValue(j), j + 1)
  {
    var v := RomanValue(j);
    MulSub(k + 1, 1, v);
    GreedyRepeatsFrom(num - k * v, j, k);
  }

  /** Rows i..i+3 of a decade hold 9, 5, 4 and 1 units, written one+ten, five, one+five, one. */
  lemma DecadeRow(i: nat)
    requires i == 1 || i == 5 || i == 9
    ensures RomanValue(i + 3) >= 1
    ensures RomanValue(i) == 9 * RomanValue(i + 3) && RomanValue(i + 1) == 5 * RomanValue(i + 3)
    ensures RomanValue(i + 2) == 4 * RomanValue(i + 3)
    ensures RomanSymbol(i) == RomanSymbol(i + 3) + RomanSymbol(i - 1)
    ensures RomanSymbol(i + 2) == RomanSymbol(i + 3) + RomanSymbol(i + 1)
  {
  }

  lemma DecadeNine(num: int, i: nat)
    requires i == 1 || i == 5 || i == 9
    requires 9 * RomanValue(i + 3) <= num < 10 * RomanValue(i + 3)
    ensures Greedy(num, i) == RomanSymbol(i) + Greedy(num - 9 * RomanValue(i + 3), i + 4)
  {
    DecadeRow(i);
    GreedySkip(num - RomanValue(i), i, i + 4);
  }

  lemma HighArith(num: int, q: nat, u: nat)
    requires 5 <= q <= 8 && q * u <= num < (q + 1) * u
    ensures 5 * u <= num < 9 * u
    ensures (q - 5) * u <= num - 5 * u < (q - 4) * u && num - 5 * u < 4 * u
    ensures num - 5 * u - (q - 5) * u == num - q * u
  {
    MulLe(q + 1, 9, u);
    MulLe(5, q, u);
    MulSub(q, 5, u);
    MulSub(q + 1, 5, u);
    MulLe(q - 4, 4, u);
  }

  lemma DecadeHigh(num: int, i: nat, q: nat)
    requires i == 1 || i == 5 || i == 9
    requires 5 <= q <= 8 && q * RomanValue(i + 3) <= num < (q + 1) * RomanValue(i + 3)
    ensures Greedy(num, i) ==
      RomanSymbol(i + 1) + Repeat(RomanSymbol(i + 3), q - 5) + Greedy(num - q * RomanValue(i + 3), i + 4)
  {
    var u := RomanValue(i + 3);
    DecadeRow(i);
    var m, rest := num - 5 * u, num - q * u;
    var five, ones := RomanSymbol(i + 1), Repeat(RomanSymbol(i + 3), q - 5);
    assert Greedy(num, i) == five + Greedy(m, i + 1) by {
      HighArith(num, q, u);
      GreedySkip(num, i, i + 1);
    }
    assert Greedy(m, i + 1) == ones + Greedy(rest, i + 4) by {
      HighArith(num, q, u);
      GreedySkip(m, i + 1, i + 3);
      GreedyRepeats(m, i + 3, q - 5);
    }
    Assoc(five, ones, Greedy(rest, i + 4));
  }

  lemma DecadeFour(num: int, i: nat)
    requires i == 1 || i == 5 || i == 9
    requires 4 * RomanValue(i + 3) <= num < 5 * RomanValue(i + 3)
    ensures Greedy(num, i) == RomanSymbol(i + 2) + Greedy(num - 4 * RomanValue(i + 3), i + 4)
  {
    DecadeRow(i);
    GreedySkip(num, i, i + 2);
    GreedySkip(num - RomanValue(i + 2), i + 2, i + 4);
  }

  lemma DecadeLow(num: int, i: nat, q: nat)
    requires i == 1 || i == 5 || i == 9
    requires q <= 3 && q * RomanValue(i + 3) <= num < (q + 1) * RomanValue(i + 3)
    ensures Greedy(num, i) == Repeat(RomanSymbol(i + 3), q) + Greedy(num - q * RomanValue(i + 3), i + 4)
  {
    DecadeRow(i);
    MulLe(q + 1, 4, RomanValue(i + 3));
    GreedySkip(num, i, i + 3);
    GreedyRepeats(num, i + 3, q);
  }

  /** One decade of the greedy table (rows i..i+3 are 9, 5, 4 and 1 units) writes one digit. */
  lemma GreedyDecade(num: int, i: nat, q: nat)
    requires i == 1 || i == 5 || i == 9
    requires q <= 9 && q * RomanValue(i + 3) <= num < (q + 1) * RomanValue(i + 3)
    ensures Greedy(num, i) ==
      DecadeNumeral(q, RomanSymbol(i + 3), RomanSymbol(i + 1), RomanSymbol(i - 1))
      + Greedy(num - q * RomanValue(i + 3), i + 4)
  {
    DecadeRow(i);
    if q == 9 {
      DecadeNine(num, i);
    } else if q >= 5 {
      DecadeHigh(num, i, q);
    } else if q == 4 {
      DecadeFour(num, i);
    } else {
      DecadeLow(num, i, q);
    }
  }

  lemma DivModFacts(n: nat, d: nat)
    requires d == 10 || d == 100 || d == 1000
    ensures n / d * d <= n < (n / d + 1) * d
    ensures n - n / d * d == n % d
  {
  }

  lemma GreedyThousands(n: nat)
    ensures Greedy(n, 0) == Repeat("M", n / 1000) + Greedy(n % 1000, 1)
  {
    DivModFacts(n, 1000);
    GreedyRepeats(n, 0, n / 1000);
  }

  lemma GreedyHundreds(r: nat)
    requires r < 1000
    ensures Greedy(r, 1) == DecadeNumeral(r / 100, "C", "D", "M") + Greedy(r % 100, 5)
  {
    DivModFacts(r, 100);
    GreedyDecade(r, 1, r / 100);
  }

  lemma GreedyTens(r: nat)
    requires r < 100
    ensures Greedy(r, 5) == DecadeNumeral(r / 10, "X", "L", "C") + Greedy(r % 10, 9)
  {
    DivModFacts(r, 10);
    GreedyDecade(r, 5, r / 10);
  }

  lemma GreedyOnes(r: nat)
    requires r < 10
    ensures Greedy(r, 9) == DecadeNumeral(r, "I", "V", "X")
  {
    GreedyDecade(r, 9, r);
    assert Greedy(0, 13) == "";
  }

  lemma ModUnique(n: int, d: int, q: int, r: int)
    requires d == 10 || d == 100
    requires n == d * q + r && 0 <= r < d
    ensures n % d == r
  {
  }

  lemma ModOfMod(n: nat)
    ensures n % 1000 % 100 == n % 100 && n % 100 % 10 == n % 10
  {
    var a, b := n / 1000, n % 1000;
    var c, r := b / 100, b % 100;
    assert n == 1000 * a + b && b == 100 * c + r;
    ModUnique(n, 100, 10 * a + c, r);
    var a', b' := n / 100, n % 100;
    var c', r' := b' / 10, b' % 10;
    assert n == 100 * a' + b' && b' == 10 * c' + r';
    ModUnique(n, 10, 10 * a' + c', r');
  }

  /** `toRoman`'s greedy table writes the standard subtractive numeral. */
  lemma GreedyIsStandard(n: nat)
    ensures Greedy(n, 0) == StandardRoman(n)
  {
    var r1, r2, r3 := n % 1000, n % 100, n % 10;
    var a, b := Repeat("M", n / 1000), DecadeNumeral(r1 / 100, "C", "D", "M");
    var c, d := DecadeNumeral(r2 / 10, "X", "L", "C"), DecadeNumeral(r3, "I", "V", "X");
    assert Greedy(n, 0) == a + Greedy(r1, 1) by {
      GreedyThousands(n);
    }
    assert Greedy(r1, 1) == b + Greedy(r2, 5) by {
      ModOfMod(n);
      GreedyHundreds(r1);
    }
    assert Greedy(r2, 5) == c + d by {
      ModOfMod(n);
      GreedyTens(r2);
      GreedyOnes(r3);
    }
    Assoc(b, c, d);
    Assoc(a, b + c, d);
    Assoc(a, b, c);
  }

  lemma {:induction false} GreedyNonEmpty(num: int, i: nat)
    requires i <= 12 && num >= 1
    ensures Greedy(num, i) != ""
    decreases 13 - i
  {
    if num < RomanValue(i) {
      GreedyNonEmpty(num, i + 1);
    }
  }

  /** `toRoman` gives the standard numeral for positive input and falls back to "I". */
  lemma RomanSpec(n: int)
    ensures n <= 0 ==> Roman(n) == "I"
    ensures n >= 1 ==> Roman(n) == StandardRoman(n)
  {
    if n <= 0 {
      GreedySkip(n, 0, 13);
    } else {
      GreedyIsStandard(n);
      GreedyNonEmpty(n, 0);
    }
  }

  lemma RomanSmallExamples()
    ensures Roman(4) == "IV" && Roman(9) == "IX" && Roman(14) == "XIV"
    ensures Roman(0) == "I"
  {
    RomanSpec(4);
    RomanSpec(9);
    RomanSpec(14);
    RomanSpec(0);
  }

  // ----- markerFor -----

  /** `markerFor(depth, index)`: Arabic, upper letters, lower Roman, lower letters, by depth mod 4. */
  function MarkerFor(depth: nat, indexZeroBased: nat): (r: string)
    ensures |r| >= 2 && r[|r| - 1] == '.'
    ensures depth % 4 == 0 ==> AllDigits(r[..|r| - 1]) && DigitsValue(r[..|r| - 1]) == indexZeroBased + 1 && r[0] != '0'
    ensures depth % 4 == 1 ==> AllUpper(r[..|r| - 1]) && AlphaValue(r[..|r| - 1]) == indexZeroBased + 1
    ensures depth % 4 == 2 ==> r[..|r| - 1] == ToLower(StandardRoman(indexZeroBased + 1))
    ensures depth % 4 == 3 ==> r[..|r| - 1] == ToLower(AlphaDigits(indexZeroBased + 1))
  {
    var n := indexZeroBased + 1;
    AlphaDigitsRoundTrip(n);
    RomanSpec(n);
    var body :=
      match depth % 4
      case 0 => NatToString(n)
      case 1 => AlphaDigits(n)
      case 2 => ToLower(Roman(n))
      case _ => ToLower(AlphaDigits(n));
    assert (body + ".")[..|body|] == body;
    body + "."
  }

  /** The marker style repeats every four levels. */
  lemma MarkerPeriodic(depth: nat, indexZeroBased: nat)
    ensures MarkerFor(depth + 4, indexZeroBased) == MarkerFor(depth, indexZeroBased)
  {
    assert (depth + 4) % 4 == depth % 4;
  }
}
