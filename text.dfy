/**
 * String helpers the outline engine relies on: JavaScript's `<` on strings
 * (lexicographic order of character codes), decimal digit strings as read by
 * `Number(...)` and written by template literals, ASCII `toLowerCase`, and
 * `String.prototype.trim`.
 */
module Text {

  // ----- Lexicographic order (JavaScript `<`, and `localeCompare` on the digit/hyphen keys) -----

  /** `a < b` on JavaScript strings: a proper prefix, or smaller at the first difference. */
  predicate LexLess(a: string, b: string)
  {
    if a == [] then b != []
    else if b == [] then false
    else if a[0] != b[0] then a[0] < b[0]
    else LexLess(a[1..], b[1..])
  }

  /** `a <= b`, i.e. `!(b < a)`. */
  predicate LexLe(a: string, b: string)
  {
    !LexLess(b, a)
  }

  lemma {:induction false} LexTrichotomy(a: string, b: string)
    ensures a == b || LexLess(a, b) || LexLess(b, a)
    ensures !(LexLess(a, b) && LexLess(b, a))
    ensures !LexLess(a, a)
  {
    if a != [] && b != [] && a[0] == b[0] {
      LexTrichotomy(a[1..], b[1..]);
      if a[1..] == b[1..] {
        assert a == [a[0]] + a[1..] && b == [b[0]] + b[1..];
      }
    }
    if a != [] {
      LexTrichotomy(a[1..], a[1..]);
    }
  }

  lemma {:induction false} LexTransitive(a: string, b: string, c: string)
    requires LexLess(a, b) && LexLess(b, c)
    ensures LexLess(a, c)
  {
    if a != [] && a[0] == b[0] && b[0] == c[0] {
      LexTransitive(a[1..], b[1..], c[1..]);
    }
  }

  /** `<=` on strings is a total preorder (in fact a total order). */
  lemma LexLeTotalPreorder(a: string, b: string, c: string)
    ensures LexLe(a, b) || LexLe(b, a)
    ensures LexLe(a, b) && LexLe(b, c) ==> LexLe(a, c)
    ensures LexLe(a, b) && LexLe(b, a) ==> a == b
  {
    LexTrichotomy(a, b);
    LexTrichotomy(b, c);
    LexTrichotomy(a, c);
    if LexLe(a, b) && LexLe(b, c) && a != b && b != c {
      LexTransitive(a, b, c);
    }
  }

  /** Comparing two strings whose first parts have equal length. */
  lemma {:induction false} LexAppend(a1: string, a2: string, b1: string, b2: string)
    requires |a1| == |b1|
    ensures LexLess(a1 + a2, b1 + b2) <==> LexLess(a1, b1) || (a1 == b1 && LexLess(a2, b2))
  {
    if a1 != [] {
      assert (a1 + a2)[0] == a1[0] && (b1 + b2)[0] == b1[0];
      assert (a1 + a2)[1..] == a1[1..] + a2 && (b1 + b2)[1..] == b1[1..] + b2;
      LexAppend(a1[1..], a2, b1[1..], b2);
      if a1[0] == b1[0] && a1[1..] == b1[1..] {
        assert a1 == [a1[0]] + a1[1..] && b1 == [b1[0]] + b1[1..];
      }
    } else {
      assert a1 + a2 == a2 && b1 + b2 == b2;
    }
  }

  // ----- Decimal digits -----

  predicate IsDigit(c: char)
  {
    '0' <= c <= '9'
  }

  predicate AllDigits(s: string)
  {
    forall i :: 0 <= i < |s| ==> IsDigit(s[i])
  }

  function DigitValue(c: char): nat
    requires IsDigit(c)
  {
    (c - '0') as nat
  }

  lemma MulLe(x: nat, y: nat, p: nat)
    requires x <= y
    ensures x * p <= y * p
  {
    assert y * p == x * p + (y - x) * p;
  }

  lemma MulTen(d: nat, p: nat)
    ensures d * (10 * p) == 10 * (d * p)
  {
  }

  function Pow10(n: nat): (p: nat)
    ensures p >= 1
  {
    if n == 0 then 1 else 10 * Pow10(n - 1)
  }

  /** `Number(s)` for a string of decimal digits (leading zeros allowed). */
  function DigitsValue(s: string): (v: nat)
    requires AllDigits(s)
    ensures v < Pow10(|s|)
  {
    if s == [] then 0
    else
      var rest := DigitsValue(s[1..]);
      MulLe(DigitValue(s[0]), 9, Pow10(|s| - 1));
      DigitValue(s[0]) * Pow10(|s| - 1) + rest
  }

  /** A smaller leading digit decides, whatever the lower digits are. */
  lemma LeadingDigitDecides(da: nat, db: nat, ra: nat, rb: nat, p: nat)
    requires da < db && ra < p && rb < p
    ensures da * p + ra < db * p + rb
  {
    MulLe(da + 1, db, p);
    assert (da + 1) * p == da * p + p;
  }

  /** For digit strings of equal length, lexicographic order is numeric order. */
  lemma {:induction false} DigitsLexOrder(a: string, b: string)
    requires AllDigits(a) && AllDigits(b) && |a| == |b|
    ensures LexLess(a, b) <==> DigitsValue(a) < DigitsValue(b)
  {
    if a != [] {
      var p := Pow10(|a| - 1);
      var ra, rb := DigitsValue(a[1..]), DigitsValue(b[1..]);
      var da, db := DigitValue(a[0]), DigitValue(b[0]);
      DigitsHead(a);
      DigitsHead(b);
      if a[0] < b[0] {
        LeadingDigitDecides(da, db, ra, rb, p);
      } else if b[0] < a[0] {
        LeadingDigitDecides(db, da, rb, ra, p);
      } else {
        DigitsLexOrder(a[1..], b[1..]);
        SameLeadingDigit(da, db, ra, rb, p);
      }
    }
  }

  lemma DigitsHead(s: string)
    requires AllDigits(s) && s != []
    ensures DigitsValue(s) == DigitValue(s[0]) * Pow10(|s| - 1) + DigitsValue(s[1..])
  {
  }

  /** With equal leading digits, the lower digits decide. */
  lemma SameLeadingDigit(da: nat, db: nat, ra: nat, rb: nat, p: nat)
    requires da == db
    ensures da * p + ra < db * p + rb <==> ra < rb
  {
  }

  lemma {:induction false} DigitsValueAppend(s: string, c: char)
    requires AllDigits(s) && IsDigit(c)
    ensures AllDigits(s + [c]) && DigitsValue(s + [c]) == 10 * DigitsValue(s) + DigitValue(c)
  {
    if s != [] {
      assert (s + [c])[1..] == s[1..] + [c];
      DigitsValueAppend(s[1..], c);
      var p := Pow10(|s| - 1);
      var d := DigitValue(s[0]);
      assert Pow10(|s|) == 10 * p;
      assert DigitsValue(s + [c]) == d * Pow10(|s|) + DigitsValue(s[1..] + [c]);
      MulTen(d, p);
    }
  }

  function DigitChar(d: nat): (c: char)
    requires d < 10
    ensures IsDigit(c) && DigitValue(c) == d
  {
    ('0' as int + d) as char
  }

  /** The decimal rendering of a natural number, as `${n}` produces it. */
  function NatToString(n: nat): (s: string)
    ensures |s| >= 1 && AllDigits(s)
    ensures DigitsValue(s) == n
    ensures n > 0 ==> s[0] != '0'
  {
    if n < 10 then
      [DigitChar(n)]
    else
      var init := NatToString(n / 10);
      DigitsValueAppend(init, DigitChar(n % 10));
      init + [DigitChar(n % 10)]
  }

  lemma NatToStringInjective(m: nat, n: nat)
    requires NatToString(m) == NatToString(n)
    ensures m == n
  {
  }

  // ----- Case conversion -----

  function LowerChar(c: char): char
  {
    if 'A' <= c <= 'Z' then (c as int + 32) as char else c
  }

  /** `toLowerCase` on the ASCII strings the label functions produce. */
  function ToLower(s: string): (r: string)
    ensures |r| == |s|
    ensures forall i :: 0 <= i < |s| ==> r[i] == LowerChar(s[i])
  {
    if s == [] then [] else [LowerChar(s[0])] + ToLower(s[1..])
  }

  // ----- trim -----

  /** The characters `String.prototype.trim` removes: WhiteSpace and LineTerminator. */
  predicate IsTrimSpace(c: char)
  {
    || c == '\t' || c == '\n' || c == '\U{B}' || c == '\U{C}' || c == '\r' || c == ' '
    || c == '\U{A0}' || c == '\U{1680}' || ('\U{2000}' <= c <= '\U{200A}')
    || c == '\U{2028}' || c == '\U{2029}' || c == '\U{202F}' || c == '\U{205F}'
    || c == '\U{3000}' || c == '\U{FEFF}'
  }

  /** Number of leading trim characters. */
  function LeadingSpace(s: string): (n: nat)
    ensures n <= |s|
    ensures forall i :: 0 <= i < n ==> IsTrimSpace(s[i])
    ensures n < |s| ==> !IsTrimSpace(s[n])
  {
    if s == [] || !IsTrimSpace(s[0]) then 0 else 1 + LeadingSpace(s[1..])
  }

  /** Number of trailing trim characters. */
  function TrailingSpace(s: string): (n: nat)
    ensures n <= |s|
    ensures forall i :: |s| - n <= i < |s| ==> IsTrimSpace(s[i])
    ensures n < |s| ==> !IsTrimSpace(s[|s| - n - 1])
  {
    if s == [] || !IsTrimSpace(s[|s| - 1]) then 0 else 1 + TrailingSpace(s[..|s| - 1])
  }

  /** `s.trim()`: the longest infix with no trim character at either end. */
  function Trim(s: string): (r: string)
    ensures r == [] <==> forall i :: 0 <= i < |s| ==> IsTrimSpace(s[i])
    ensures r != [] ==> !IsTrimSpace(r[0]) && !IsTrimSpace(r[|r| - 1])
    ensures |r| <= |s| - LeadingSpace(s) && s[LeadingSpace(s)..LeadingSpace(s) + |r|] == r
    ensures forall i :: 0 <= i < |s| && !(LeadingSpace(s) <= i < LeadingSpace(s) + |r|) ==> IsTrimSpace(s[i])
  {
    var lead := LeadingSpace(s);
    var rest := s[lead..];
    var r := rest[..|rest| - TrailingSpace(rest)];
    TrimParts(s, lead, rest, r);
    r
  }

  lemma TrimParts(s: string, lead: nat, rest: string, r: string)
    requires lead == LeadingSpace(s) && rest == s[lead..] && r == rest[..|rest| - TrailingSpace(rest)]
    ensures r == [] <==> forall i :: 0 <= i < |s| ==> IsTrimSpace(s[i])
    ensures r != [] ==> !IsTrimSpace(r[0]) && !IsTrimSpace(r[|r| - 1])
    ensures lead + |r| <= |s| && s[lead..lead + |r|] == r
    ensures forall i :: 0 <= i < |s| && !(lead <= i < lead + |r|) ==> IsTrimSpace(s[i])
  {
    TrimOutside(s, lead, rest, r);
    TrimEnds(s, lead, rest, r);
  }

  /** Everything outside the kept infix is a trim character. */
  lemma TrimOutside(s: string, lead: nat, rest: string, r: string)
    requires lead == LeadingSpace(s) && rest == s[lead..] && r == rest[..|rest| - TrailingSpace(rest)]
    ensures lead + |r| <= |s| && s[lead..lead + |r|] == r
    ensures forall i :: 0 <= i < |s| && !(lead <= i < lead + |r|) ==> IsTrimSpace(s[i])
  {
    assert s[lead..lead + |r|] == rest[..|r|];
    forall i | lead + |r| <= i < |s|
      ensures IsTrimSpace(s[i])
    {
      assert s[i] == rest[i - lead];
    }
  }

  /** The kept infix is empty only for an all-space string, and otherwise starts and ends with a non-space. */
  lemma TrimEnds(s: string, lead: nat, rest: string, r: string)
    requires lead == LeadingSpace(s) && rest == s[lead..] && r == rest[..|rest| - TrailingSpace(rest)]
    ensures r == [] <==> lead == |s|
    ensures r != [] ==> !IsTrimSpace(r[0]) && !IsTrimSpace(r[|r| - 1])
  {
    if lead < |s| {
      assert rest[0] == s[lead];
      assert TrailingSpace(rest) < |rest|;
    }
  }
}
