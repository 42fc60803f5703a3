/** Decimal numerals, zero padding and the code-unit order on strings, as the scripts use them. */
module Text {

  /** String(n) for a non-negative integer. */
  function Decimal(n: nat): string {
    if n < 10 then [DigitChar(n)] else Decimal(n / 10) + [DigitChar(n % 10)]
  }

  function DigitChar(d: nat): char
    requires d < 10
  {
    '0' + d as char
  }

  predicate IsDigit(c: char) {
    '0' <= c <= '9'
  }

  ghost predicate AllDigits(s: string) {
    forall i :: 0 <= i < |s| ==> IsDigit(s[i])
  }

  /** The number a string of digits denotes; leading zeros do not count. */
  function Value(s: string): nat {
    if s == [] then 0
    else Value(s[..|s| - 1]) * 10 + (if IsDigit(s[|s| - 1]) then (s[|s| - 1] - '0') as nat else 0)
  }

  /** text.padStart(width, '0'). */
  function PadStart(s: string, width: nat): string
    decreases width - |s|
  {
    if |s| >= width then s else PadStart(['0'] + s, width)
  }

  lemma {:induction false} DecimalValue(n: nat)
    ensures AllDigits(Decimal(n)) && |Decimal(n)| > 0
    ensures Value(Decimal(n)) == n
  {
    if n < 10 {
      assert Decimal(n)[..0] == [];
    } else {
      DecimalValue(n / 10);
      assert Decimal(n)[..|Decimal(n)| - 1] == Decimal(n / 10);
    }
  }

  lemma {:induction false} LeadingZero(s: string)
    ensures Value(['0'] + s) == Value(s)
  {
    var z := ['0'] + s;
    if s == [] {
      assert z[..0] == [];
    } else {
      LeadingZero(s[..|s| - 1]);
      assert z[..|z| - 1] == ['0'] + s[..|s| - 1];
    }
  }

  lemma {:induction false} PadStartValue(s: string, width: nat)
    requires AllDigits(s)
    ensures AllDigits(PadStart(s, width)) && Value(PadStart(s, width)) == Value(s)
    decreases width - |s|
  {
    if |s| < width {
      LeadingZero(s);
      PadStartValue(['0'] + s, width);
    }
  }

  /** The padded numeral of n, from which n can be read back. */
  function Padded(n: nat, width: nat): string {
    PadStart(Decimal(n), width)
  }

  lemma PaddedValue(n: nat, width: nat)
    ensures AllDigits(Padded(n, width)) && Value(Padded(n, width)) == n
  {
    DecimalValue(n);
    PadStartValue(Decimal(n), width);
  }

  /** A field of digits ended by a separator that is not a digit determines both the field and the rest. */
  lemma {:induction false} FieldUnique(a: string, b: string, c: char, x: string, y: string)
    requires AllDigits(a) && AllDigits(b) && !IsDigit(c)
    requires a + [c] + x == b + [c] + y
    ensures a == b && x == y
  {
    var l, r := a + [c] + x, b + [c] + y;
    if a == [] || b == [] {
      assert l[0] == r[0];
      assert l[1..] == x && r[1..] == y;
    } else {
      assert l[0] == a[0] && r[0] == b[0];
      assert l[1..] == a[1..] + [c] + x && r[1..] == b[1..] + [c] + y;
      FieldUnique(a[1..], b[1..], c, x, y);
      assert a == [a[0]] + a[1..] && b == [b[0]] + b[1..];
    }
  }

  /** left <= right in the code-unit order of JavaScript strings. */
  predicate Leq(left: string, right: string) {
    left == [] || (right != [] && (left[0] < right[0] || (left[0] == right[0] && Leq(left[1..], right[1..]))))
  }

  lemma {:induction false} LeqTotal(a: string, b: string)
    ensures Leq(a, b) || Leq(b, a)
  {
    if a != [] && b != [] { LeqTotal(a[1..], b[1..]); }
  }

  lemma {:induction false} LeqTransitive(a: string, b: string, c: string)
    requires Leq(a, b) && Leq(b, c)
    ensures Leq(a, c)
  {
    if a != [] && a[0] == b[0] == c[0] { LeqTransitive(a[1..], b[1..], c[1..]); }
  }

  lemma {:induction false} LeqAntisymmetric(a: string, b: string)
    requires Leq(a, b) && Leq(b, a)
    ensures a == b
  {
    if a != [] && b != [] {
      LeqAntisymmetric(a[1..], b[1..]);
      assert a == [a[0]] + a[1..] && b == [b[0]] + b[1..];
    }
  }
}
