/** Decimal printing of natural numbers. */
module Decimal {

  predicate IsDigit(c: char) {
    '0' <= c <= '9'
  }

  function Digit(d: nat): char
    requires d < 10
  {
    '0' + d as char
  }

  function Print(n: nat): string {
    if n < 10 then [Digit(n)] else Print(n / 10) + [Digit(n % 10)]
  }

  lemma {:induction false} PrintIsDigits(n: nat)
    ensures Print(n) != [] && forall c | c in Print(n) :: IsDigit(c)
  {
    if n >= 10 {
      PrintIsDigits(n / 10);
    }
  }

  /** The number a row of digits stands for. */
  function Reading(text: string): int {
    if text == [] then 0
    else Reading(text[..|text| - 1]) * 10 + (text[|text| - 1] as int - '0' as int)
  }

  /** A number is printed as the row of digits that stands for it, without a leading zero. */
  lemma {:induction false} PrintExactly(n: nat)
    ensures Reading(Print(n)) == n
    ensures Print(n) != [] && (Print(n)[0] == '0' <==> n == 0)
  {
    if n >= 10 {
      PrintExactly(n / 10);
      assert Print(n)[..|Print(n)| - 1] == Print(n / 10);
    } else {
      assert Print(n)[..0] == [];
    }
  }

  /** Different numbers print differently. */
  lemma {:induction false} PrintInjective(a: nat, b: nat)
    requires Print(a) == Print(b)
    ensures a == b
  {
    PrintIsDigits(a / 10);
    PrintIsDigits(b / 10);
    var text := Print(a);
    assert text[|text| - 1] == Digit(a % 10) == Digit(b % 10);
    if a >= 10 && b >= 10 {
      assert Print(a / 10) == text[..|text| - 1] == Print(b / 10);
      PrintInjective(a / 10, b / 10);
    } else {
      assert |Print(a)| == 1 <==> a < 10;
    }
  }

  /** The digits of a number end where something else begins. */
  lemma DigitsEnd(n: nat, rest: string)
    requires rest != [] && !IsDigit(rest[0])
    ensures forall i | 0 <= i < |Print(n)| :: IsDigit((Print(n) + rest)[i])
    ensures !IsDigit((Print(n) + rest)[|Print(n)|])
  {
    PrintIsDigits(n);
    forall i | 0 <= i < |Print(n)|
      ensures IsDigit((Print(n) + rest)[i])
    {
      assert Print(n)[i] in Print(n);
    }
  }

  /** A number followed by something other than a digit can be read back. */
  lemma PrintThen(a: nat, s: string, b: nat, t: string)
    requires Print(a) + s == Print(b) + t
    requires s != [] && t != [] && !IsDigit(s[0]) && !IsDigit(t[0])
    ensures a == b && s == t
  {
    var x, y := Print(a), Print(b);
    DigitsEnd(a, s);
    DigitsEnd(b, t);
    assert |x| == |y|;
    assert x == (x + s)[..|x|] && y == (y + t)[..|y|];
    assert s == (x + s)[|x|..] && t == (y + t)[|y|..];
    PrintInjective(a, b);
  }
}
