/** Decimal digit strings: `String(n)`, `padStart`, and the number a digit string denotes.
    Day keys, time keys and verification codes are all built from these. */
module Decimal {
  import Keys

  predicate IsDigit(c: char) {
    '0' <= c <= '9'
  }

  predicate AllDigits(s: string) {
    forall i :: 0 <= i < |s| ==> IsDigit(s[i])
  }

  function Pow10(k: nat): (p: nat)
    ensures p >= 1
  {
    if k == 0 then 1 else 10 * Pow10(k - 1)
  }

  function DigitValue(c: char): nat
    requires IsDigit(c)
  {
    c as int - '0' as int
  }

  function DigitChar(d: nat): (c: char)
    requires d < 10
    ensures IsDigit(c) && DigitValue(c) == d
  {
    ('0' as int + d) as char
  }

  /** The number a string of decimal digits denotes; leading zeros are allowed. */
  function Value(s: string): nat
    requires AllDigits(s)
    decreases |s|
  {
    if s == [] then 0 else Value(s[..|s| - 1]) * 10 + DigitValue(s[|s| - 1])
  }

  /** `String(n)` for a non-negative integer: its decimal digits, without leading zeros. */
  function Digits(n: nat): (s: string)
    decreases n
  {
    if n < 10 then [DigitChar(n)] else Digits(n / 10) + [DigitChar(n % 10)]
  }

  /** `String.prototype.padStart`: fill characters in front up to `width`; a string already
      that long comes back as it is, never truncated. */
  function PadStart(s: string, width: nat, fill: char): (r: string)
    ensures |r| == if |s| >= width then |s| else width
    ensures r[|r| - |s|..] == s
    ensures forall i :: 0 <= i < |r| - |s| ==> r[i] == fill
  {
    if |s| >= width then s else seq(width - |s|, _ => fill) + s
  }

  /** `String(n).padStart(width, '0')` for a non-negative integer, the building block of
      every key. */
  function Field(n: nat, width: nat): string {
    PadStart(Digits(n), width, '0')
  }

  lemma {:induction false} ValueSnoc(s: string, c: char)
    requires AllDigits(s) && IsDigit(c)
    ensures AllDigits(s + [c]) && Value(s + [c]) == Value(s) * 10 + DigitValue(c)
  {
    assert (s + [c])[..|s + [c]| - 1] == s;
  }

  /** `String(n)` is a digit string and it denotes `n`. */
  lemma {:induction false} DigitsCorrect(n: nat)
    ensures AllDigits(Digits(n)) && Value(Digits(n)) == n
    decreases n
  {
    if n < 10 {
      assert Digits(n)[..0] == [];
    } else {
      DigitsCorrect(n / 10);
      ValueSnoc(Digits(n / 10), DigitChar(n % 10));
    }
  }

  /** `String(n)` has at most `k` digits exactly when `n < 10^k`. */
  lemma {:induction false} DigitsLength(n: nat, k: nat)
    requires k >= 1
    ensures |Digits(n)| <= k <==> n < Pow10(k)
    decreases n
  {
    if n >= 10 {
      if k == 1 {
        assert |Digits(n)| == |Digits(n / 10)| + 1;
      } else {
        DigitsLength(n / 10, k - 1);
      }
    }
  }

  lemma {:induction false} ValueOfZeros(m: nat)
    ensures AllDigits(seq(m, _ => '0')) && Value(seq(m, _ => '0')) == 0
    decreases m
  {
    if m > 0 {
      assert seq(m, _ => '0')[..m - 1] == seq(m - 1, _ => '0');
      ValueOfZeros(m - 1);
    }
  }

  /** Concatenation shifts the front part left by the length of the back part. */
  lemma {:induction false} ValueConcat(a: string, b: string)
    requires AllDigits(a) && AllDigits(b)
    ensures AllDigits(a + b) && Value(a + b) == Value(a) * Pow10(|b|) + Value(b)
    decreases |b|
  {
    if b == [] {
      assert a + b == a;
    } else {
      var b' := b[..|b| - 1];
      var c := b[|b| - 1];
      assert a + b == (a + b') + [c];
      assert b == b' + [c];
      ValueConcat(a, b');
      ValueSnoc(a + b', c);
      ValueSnoc(b', c);
      ShiftDigit(Value(a), Pow10(|b'|), Value(b'), DigitValue(c));
    }
  }

  lemma ShiftDigit(x: nat, p: nat, y: nat, d: nat)
    ensures (x * p + y) * 10 + d == x * (10 * p) + (y * 10 + d)
  {
  }

  lemma {:induction false} ValueBound(s: string)
    requires AllDigits(s)
    ensures Value(s) < Pow10(|s|)
    decreases |s|
  {
    if s != [] {
      ValueBound(s[..|s| - 1]);
    }
  }

  /** The first digit carries the weight 10^(|s|-1). */
  lemma ValueFront(s: string)
    requires AllDigits(s) && |s| >= 1
    ensures Value(s) == DigitValue(s[0]) * Pow10(|s| - 1) + Value(s[1..])
  {
    var c, t := s[0], s[1..];
    assert s == [c] + t;
    ValueConcat([c], t);
    ValueOfOne(c);
  }

  lemma ValueOfOne(c: char)
    requires IsDigit(c)
    ensures AllDigits([c]) && Value([c]) == DigitValue(c)
  {
    assert [c][..0] == [];
  }

  /** A field of a value that fits its width is exactly `width` digits and reads back as the
      value: padding keeps leading zeros and loses nothing. */
  lemma FieldRoundTrip(n: nat, width: nat)
    requires width >= 1 && n < Pow10(width)
    ensures |Field(n, width)| == width && AllDigits(Field(n, width)) && Value(Field(n, width)) == n
  {
    var d := Digits(n);
    DigitsCorrect(n);
    DigitsLength(n, width);
    var zeros := seq(width - |d|, _ => '0');
    assert Field(n, width) == zeros + d;
    ValueOfZeros(width - |d|);
    ValueConcat(zeros, d);
  }

  /** A field of a value that does not fit is longer than its width: padStart never truncates. */
  lemma FieldOverflow(n: nat, width: nat)
    requires width >= 1 && n >= Pow10(width)
    ensures |Field(n, width)| > width
  {
    DigitsLength(n, width);
  }

  /** For digit strings of one length, string comparison is numeric order. */
  lemma {:induction false} LexIsNumeric(a: string, b: string)
    requires |a| == |b| && AllDigits(a) && AllDigits(b)
    ensures Keys.Lex(a, b) <==> Value(a) < Value(b)
    decreases |a|
  {
    if |a| > 0 {
      var p := Pow10(|a| - 1);
      ValueFront(a);
      ValueFront(b);
      ValueBound(a[1..]);
      ValueBound(b[1..]);
      var da, db := DigitValue(a[0]), DigitValue(b[0]);
      if da < db {
        FrontDecides(da, db, Value(a[1..]), Value(b[1..]), p);
      } else if db < da {
        FrontDecides(db, da, Value(b[1..]), Value(a[1..]), p);
      } else {
        LexIsNumeric(a[1..], b[1..]);
      }
    }
  }

  /** The form of an integer-like key: digits, and no leading zero unless it is "0". */
  predicate Canonical(s: string) {
    |s| >= 1 && AllDigits(s) && (|s| == 1 || s[0] != '0')
  }

  /** `String(n)` is an integer-like key: it has no leading zero. */
  lemma {:induction false} DigitsCanonical(n: nat)
    ensures Canonical(Digits(n))
    decreases n
  {
    DigitsCorrect(n);
    if n >= 10 {
      var front := Digits(n / 10);
      DigitsCanonical(n / 10);
      assert Digits(n)[0] == front[0];
      if |front| == 1 {
        DigitsLength(n / 10, 1);
        assert front[0] == DigitChar(n / 10);
      }
    }
  }

  /** A value that fills its width is written without padding, so its field is integer-like. */
  lemma FieldUnpadded(n: nat, width: nat)
    requires width >= 2 && n >= Pow10(width - 1)
    ensures Field(n, width) == Digits(n) && Canonical(Field(n, width)) && Value(Field(n, width)) == n
  {
    DigitsLength(n, width - 1);
    DigitsCanonical(n);
    DigitsCorrect(n);
  }

  /** A leading digit other than 0 makes the value at least 10^(|s|-1). */
  lemma LeadingDigitBound(s: string)
    requires |s| >= 1 && AllDigits(s) && s[0] != '0'
    ensures Value(s) >= Pow10(|s| - 1)
  {
    ValueFront(s);
    MulMonotone(1, DigitValue(s[0]), Pow10(|s| - 1));
  }

  lemma {:induction false} Pow10Monotone(i: nat, j: nat)
    requires i <= j
    ensures Pow10(i) <= Pow10(j)
    decreases j
  {
    if i < j {
      Pow10Monotone(i, j - 1);
    }
  }

  /** For integer-like keys, the listing order of Object.keys is numeric order. */
  lemma LessIsNumeric(a: string, b: string)
    requires Canonical(a) && Canonical(b)
    ensures Keys.Less(a, b) <==> Value(a) < Value(b)
  {
    if |a| == |b| {
      LexIsNumeric(a, b);
    } else if |a| < |b| {
      ValueBound(a);
      Pow10Monotone(|a|, |b| - 1);
      LeadingDigitBound(b);
    } else {
      ValueBound(b);
      Pow10Monotone(|b|, |a| - 1);
      LeadingDigitBound(a);
    }
  }

  /** A smaller leading digit outweighs whatever follows it. */
  lemma FrontDecides(x: nat, y: nat, rx: nat, ry: nat, p: nat)
    requires x < y && rx < p
    ensures x * p + rx < y * p + ry
  {
    MulMonotone(x + 1, y, p);
  }

  lemma MulMonotone(x: nat, y: nat, p: nat)
    requires x <= y
    ensures x * p <= y * p
  {
  }
}
