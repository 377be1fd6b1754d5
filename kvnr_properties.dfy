/** Properties of the KVNR check digit and of validation: the folding step,
    the letter mapping, which characters the check digit depends on, that
    every well-formed body has exactly one valid last digit, that changing
    any one digit of a valid number makes it invalid, a worked example, and
    how the format test of the PHP code differs from the intended one. */
module KVNRProperties {
  import opened KVNR

  /** Folding a digit times its weight (at most 18): a product below 10 is
      kept, a larger one becomes the sum of its two digits, that is the
      product minus 9. Either way the folded value is a digit. */
  lemma FoldSmallProduct(p: nat)
    requires p <= 18
    ensures DigitSum(p) <= 9
    ensures p < 10 ==> DigitSum(p) == p
    ensures p >= 10 ==> DigitSum(p) == p / 10 + p % 10 == p - 9
  {
  }

  /** Folding keeps a value modulo 9 (casting out nines): the folded value
      of a product is congruent to the product itself modulo 9. */
  lemma {:induction false} DigitSumMod9(p: nat)
    ensures DigitSum(p) % 9 == p % 9
  {
    if p >= 10 {
      var q, r := p / 10, p % 10;
      var a := DigitSum(q);
      DigitSumMod9(q);
      assert a == 9 * (a / 9) + a % 9 && q == 9 * (q / 9) + q % 9;
      assert DigitSum(p) == (q + r) + 9 * (a / 9 - q / 9);
      AddMultipleOfNine(q + r, a / 9 - q / 9);
      assert p == (q + r) + 9 * q;
      AddMultipleOfNine(q + r, q);
    }
  }

  /** Adding a multiple of 9 leaves a value unchanged modulo 9. */
  lemma AddMultipleOfNine(x: int, k: int)
    ensures (x + 9 * k) % 9 == x % 9
  {
  }

  /** On digits, folding the weighted value is one-to-one: weight 1 is the
      identity, weight 2 sends 0..9 to 0, 2, 4, 6, 8, 1, 3, 5, 7, 9. */
  lemma FoldInjective(i: nat, d1: nat, d2: nat)
    requires d1 <= 9 && d2 <= 9
    requires DigitSum(d1 * Weight(i)) == DigitSum(d2 * Weight(i))
    ensures d1 == d2
  {
  }

  /** The letter mapping at its two ends: 'A' gives the leading digits 0, 1
      and 'Z' gives 2, 6; distinct letters give distinct leading pairs. */
  lemma LetterBoundaries(b1: string, b2: string)
    requires |b1| > 0 && IsUpperLetter(b1[0]) && |b2| > 0 && IsUpperLetter(b2[0])
    ensures b1[0] == 'A' ==> Digits(b1)[..2] == [0, 1]
    ensures b1[0] == 'Z' ==> Digits(b1)[..2] == [2, 6]
    ensures Digits(b1)[..2] == Digits(b2)[..2] ==> b1[0] == b2[0]
  {
  }

  /** The check digit depends on the first nine characters only. */
  lemma CheckDigitReadsNine(body: string)
    requires |body| >= 9
    ensures CheckDigit(body) == CheckDigit(body[..9])
  {
    if 1 <= LetterNumber(body) <= 26 {
      assert Digits(body) == Digits(body[..9]);
    }
  }

  /** Replacing one entry of a sequence changes its sum by the difference. */
  lemma {:induction false} SumUpdate(s: seq<nat>, i: nat, v: nat)
    requires i < |s|
    ensures Sum(s[i := v]) + s[i] == Sum(s) + v
  {
    if i == 0 {
      assert s[i := v][1..] == s[1..];
    } else {
      SumUpdate(s[1..], i - 1, v);
      assert s[i := v][1..] == s[1..][i - 1 := v];
    }
  }

  /** The sum of n values in 0..9 is at most 9 * n; for the weighted
      array it lies in 0..90. */
  lemma {:induction false} SumBound(s: seq<nat>)
    requires forall k :: 0 <= k < |s| ==> s[k] <= 9
    ensures Sum(s) <= 9 * |s|
  {
    if s != [] {
      SumBound(s[1..]);
    }
  }

  /** Two naturals that differ by less than 10 differ modulo 10. */
  lemma CloseValuesDifferMod10(a: nat, b: nat)
    requires a != b && a < b + 10 && b < a + 10
    ensures a % 10 != b % 10
  {
  }

  /** A different digit at one of the body's digit positions always gives a
      different check digit. */
  lemma CheckDigitDetectsSubstitution(body: string, j: nat, c: char)
    requires WellFormedBody(body) && 1 <= j < 9 && IsDigitChar(c) && c != body[j]
    ensures CheckDigit(body[j := c]) != CheckDigit(body)
  {
    var changed := body[j := c];
    var d, d' := Digits(body), Digits(changed);
    assert d' == d[j + 1 := IntVal(c)];
    var f, f' := Folded(d), Folded(d');
    assert f' == f[j + 1 := f'[j + 1]];
    SumUpdate(f, j + 1, f'[j + 1]);
    assert f[j + 1] != f'[j + 1] by {
      if f[j + 1] == f'[j + 1] {
        FoldInjective(j + 1, d[j + 1], d'[j + 1]);
      }
    }
    CloseValuesDifferMod10(Sum(f), Sum(f'));
  }

  /** Every well-formed body has exactly one last digit that makes the whole
      number valid: the digit of its check digit. */
  lemma ExactlyOneCheckDigit(body: string)
    requires WellFormedBody(body)
    ensures 0 <= CheckDigit(body) <= 9
    ensures Validate(body + [DigitChar(CheckDigit(body))])
    ensures forall c :: IsDigitChar(c) && Validate(body + [c]) ==> c == DigitChar(CheckDigit(body))
  {
  }

  /** Changing any one digit of a valid KVNR, the check digit included, to
      another digit makes it invalid. */
  lemma SubstitutionInvalidates(s: string, i: nat, c: char)
    requires Validate(s) && 1 <= i < 10 && IsDigitChar(c) && c != s[i]
    ensures !Validate(s[i := c])
  {
    var changed := s[i := c];
    assert WellFormed(changed);
    if i == 9 {
      assert changed[..9] == s[..9];
    } else {
      assert changed[..9] == s[..9][i := c];
      CheckDigitDetectsSubstitution(s[..9], i, c);
    }
  }

  /** A worked example: "A12345678" has the digit array 0 1 1 2 3 4 5 6 7 8
      and the folded values 0 2 1 4 3 8 5 3 7 7 (6 * 2 = 12 folds to 3,
      8 * 2 = 16 to 7), which sum to 40, so its check digit is 0. */
  lemma WorkedExampleCheckDigit()
    ensures Digits("A12345678") == [0, 1, 1, 2, 3, 4, 5, 6, 7, 8]
    ensures Folded(Digits("A12345678")) == [0, 2, 1, 4, 3, 8, 5, 3, 7, 7]
    ensures CheckDigit("A12345678") == 0
  {
    var d := Digits("A12345678");
    assert d == [0, 1, 1, 2, 3, 4, 5, 6, 7, 8];
    var f := Folded(d);
    assert f[7] == DigitSum(12) == 3;
    assert f[9] == DigitSum(16) == 7;
    assert f == [0, 2, 1, 4, 3, 8, 5, 3, 7, 7];
    assert Sum([7]) == 7;
    assert Sum([7, 7]) == 14;
    assert Sum([3, 7, 7]) == 17;
    assert Sum([5, 3, 7, 7]) == 22;
    assert Sum([8, 5, 3, 7, 7]) == 30;
    assert Sum([3, 8, 5, 3, 7, 7]) == 33;
    assert Sum([4, 3, 8, 5, 3, 7, 7]) == 37;
    assert Sum([1, 4, 3, 8, 5, 3, 7, 7]) == 38;
    assert Sum([2, 1, 4, 3, 8, 5, 3, 7, 7]) == 40;
    assert Sum([0, 2, 1, 4, 3, 8, 5, 3, 7, 7]) == 40;
  }

  /** With the worked example, "A123456780" is valid and flipping its last
      digit to 9 makes it invalid. */
  lemma WorkedExampleValidate()
    ensures Validate("A123456780") && !Validate("A123456789")
  {
    var body := "A12345678";
    WorkedExampleCheckDigit();
    assert WellFormedBody(body);
    ExactlyOneCheckDigit(body);
    assert "A123456780" == body + [DigitChar(0)];
    assert "A123456789" == body + ['9'];
  }

  /** Inputs outside the format are rejected: empty, a lower-case letter, a
      digit first, too short, too long, a letter in second place. */
  lemma MalformedRejected()
    ensures !Validate("") && !Validate("a123456780") && !Validate("1234567890")
    ensures !Validate("A12345678") && !Validate("A1234567800") && !Validate("AB23456780")
  {
    assert !IsDigitChar("AB23456780"[1]);
  }

  /** The code as written also accepts a well-formed number followed by a
      single newline; that is the only difference from the intended format. */
  lemma ValidateAsWrittenCharacterised(s: string)
    ensures ValidateAsWritten(s) <==>
              Validate(s) || (|s| == 11 && s[10] == '\n' && Validate(s[..10]))
  {
    if |s| == 11 && s[10] == '\n' && WellFormed(s[..10]) {
      var t := s[..10];
      assert s[..|s| - 1] == t;
      CheckDigitReadsNine(t);
      assert t[..9] == s[..9] && t[9] == s[9];
      assert !WellFormed(s);
    }
  }

  /** The input that shows the difference: as written "A123456780\n" is a
      valid KVNR, under the intended format it is not. */
  lemma TrailingNewlineAccepted()
    ensures ValidateAsWritten("A123456780\n")
    ensures !Validate("A123456780\n")
  {
    WorkedExampleValidate();
    ValidateAsWrittenCharacterised("A123456780\n");
    assert "A123456780\n"[..10] == "A123456780";
  }
}
