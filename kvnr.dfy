/** Model of the KVNR validator: the format check and the check-digit
    computation of the German statutory health-insurance number
    (Krankenversichertennummer), one upper-case letter followed by nine
    digits, the last of which is a check digit over the first nine
    characters.

    Strings are sequences of characters. PHP reads an offset past the end of
    a string as the empty string, `ord("")` is 0 and `intval` of anything that
    is not a digit is 0; the model writes these out so that every operation
    is total, as the PHP code is. */
module KVNR {

  /** The character class `[A-Z]`. */
  predicate IsUpperLetter(c: char) {
    'A' <= c <= 'Z'
  }

  /** The character class `[0-9]`. */
  predicate IsDigitChar(c: char) {
    '0' <= c <= '9'
  }

  /** The intended format: exactly one upper-case letter followed by exactly
      nine decimal digits. */
  predicate WellFormed(s: string)
    ensures WellFormed(s) ==> |s| == 10 && 1 <= LetterNumber(s) <= 26
    ensures WellFormed(s) ==> |s| == 10 && forall i :: 1 <= i < 10 ==> ValueAt(s, i) == s[i] as int - '0' as int
  {
    |s| == 10 && IsUpperLetter(s[0]) && forall i :: 1 <= i < 10 ==> IsDigitChar(s[i])
  }

  /** What `validate` hands to the check-digit computation: a letter and the
      eight digits before the check digit. */
  predicate WellFormedBody(body: string)
    ensures WellFormedBody(body) ==> forall c :: IsDigitChar(c) ==> WellFormed(body + [c])
  {
    |body| == 9 && IsUpperLetter(body[0]) && forall i :: 1 <= i < 9 ==> IsDigitChar(body[i])
  }

  /** `intval` of a one-character string: the value of a digit, 0 otherwise. */
  function IntVal(c: char): (v: nat)
    ensures v <= 9
    ensures IsDigitChar(c) ==> c as int == '0' as int + v
    ensures !IsDigitChar(c) ==> v == 0
  {
    if IsDigitChar(c) then c as int - '0' as int else 0
  }

  /** `intval($s[$i])`: an offset past the end reads as "" and gives 0. */
  function ValueAt(s: string, i: nat): (v: nat)
    ensures v <= 9
    ensures i >= |s| ==> v == 0
    ensures i < |s| && IsDigitChar(s[i]) ==> v == s[i] as int - '0' as int
  {
    if i < |s| then IntVal(s[i]) else 0
  }

  /** `ord($kvnr[0]) - 64`: the position of a capital letter in the alphabet. */
  function LetterNumber(body: string): (n: int)
    ensures 1 <= n <= 26 <==> |body| > 0 && IsUpperLetter(body[0])
    ensures |body| > 0 && IsUpperLetter(body[0]) ==> n == body[0] as int - 'A' as int + 1
  {
    (if |body| == 0 then 0 else body[0] as int) - 64
  }

  /** The weight of position i: 1, 2, 1, 2, ... */
  function Weight(i: nat): (w: nat)
    ensures w == 1 || w == 2
    ensures w == 1 <==> i % 2 == 0
  {
    if i % 2 == 0 then 1 else 2
  }

  /** `array_sum(str_split(strval($p)))`: the sum of the decimal digits of p. */
  function DigitSum(p: nat): (r: nat)
    ensures r <= p
    ensures p < 10 ==> r == p
    ensures p >= 10 ==> r < p
  {
    if p < 10 then p else DigitSum(p / 10) + p % 10
  }

  /** The sum of a sequence of naturals (`array_sum`). */
  function Sum(s: seq<nat>): (r: nat)
    ensures s != [] ==> s[0] <= r
  {
    if s == [] then 0 else s[0] + Sum(s[1..])
  }

  /** The ten-element digit array `$kvnrDigits`: the two digits of the
      zero-padded letter number, then the values of characters 1..8. */
  function Digits(body: string): (d: seq<nat>)
    requires 1 <= LetterNumber(body) <= 26
    ensures |d| == 10
    ensures d[0] <= 2 && d[1] <= 9 && d[0] * 10 + d[1] == LetterNumber(body)
    ensures forall i :: 2 <= i < 10 ==> d[i] == ValueAt(body, i - 1)
    ensures forall i :: 0 <= i < 10 ==> d[i] <= 9
  {
    var n := LetterNumber(body);
    [n / 10, n % 10] + seq(8, k requires 0 <= k < 8 => ValueAt(body, k + 1))
  }

  /** The array `$kvnrDigitsWeighted`: each digit times its weight, a
      two-digit product folded into the sum of its digits. */
  function Folded(digits: seq<nat>): (f: seq<nat>)
    ensures |f| == |digits|
    ensures forall i :: 0 <= i < |f| && digits[i] <= 9 ==> f[i] <= 9
  {
    seq(|digits|, i requires 0 <= i < |digits| => FoldedAt(digits, i))
  }

  /** Entry i of `Folded(digits)`; a digit at most 9 folds to at most 9. */
  function FoldedAt(digits: seq<nat>, i: nat): (v: nat)
    requires i < |digits|
    ensures digits[i] <= 9 ==> v <= 9
  {
    var p := digits[i] * Weight(i);
    assert digits[i] <= 9 ==> p < 10 || p / 10 == 1;
    DigitSum(p)
  }

  /** The specification of `computeCheckDigit`: the folded sum modulo 10
      when the first character is a capital letter, the sentinel -1 otherwise.
      The sum is a natural, so PHP's truncating `%` and Dafny's `%` agree. */
  function CheckDigit(body: string): (r: int)
    ensures -1 <= r <= 9
    ensures r == -1 <==> !(|body| > 0 && IsUpperLetter(body[0]))
  {
    var n := LetterNumber(body);
    if 1 <= n <= 26 then Sum(Folded(Digits(body))) % 10 else -1
  }

  /** `computeCheckDigit`, step by step as in the source: the digit array is
      filled in one loop, the weighted array in a second, and the result is
      their sum modulo 10 (or -1 when the first character is no capital). */
  method ComputeCheckDigit(body: string) returns (checkDigit: int)
    ensures checkDigit == CheckDigit(body)
  {
    var digitChar := LetterNumber(body);
    if digitChar <= 26 && digitChar >= 1 {
      var kvnrDigits := new nat[10];
      kvnrDigits[0] := digitChar / 10;
      kvnrDigits[1] := digitChar % 10;
      for i := 2 to 10
        invariant kvnrDigits[0] == digitChar / 10 && kvnrDigits[1] == digitChar % 10
        invariant forall k :: 2 <= k < i ==> kvnrDigits[k] == ValueAt(body, k - 1)
      {
        kvnrDigits[i] := ValueAt(body, i - 1);
      }
      assert kvnrDigits[..] == Digits(body);
      var kvnrDigitsWeighted := new nat[10];
      for i := 0 to 10
        invariant kvnrDigits[..] == Digits(body)
        invariant forall k :: 0 <= k < i ==> kvnrDigitsWeighted[k] == FoldedAt(kvnrDigits[..], k)
      {
        var weight := if i % 2 == 0 then 1 else 2;
        kvnrDigitsWeighted[i] := DigitSum(kvnrDigits[i] * weight);
      }
      assert kvnrDigitsWeighted[..] == Folded(Digits(body));
      checkDigit := Sum(kvnrDigitsWeighted[..]) % 10;
    } else {
      checkDigit := -1;
    }
  }

  /** The character '0'..'9' whose value is the digit d. */
  function DigitChar(d: nat): (c: char)
    requires d <= 9
    ensures IsDigitChar(c) && IntVal(c) == d
  {
    ('0' as int + d) as char
  }

  /** `validate`: false for anything outside the format, otherwise whether
      the last character is the check digit of the nine before it. */
  function Validate(s: string): (valid: bool)
    ensures !WellFormed(s) ==> !valid
    ensures valid <==> WellFormed(s) && s[9] == DigitChar(CheckDigit(s[..9]))
  {
    if WellFormed(s) then IntVal(s[9]) as int == CheckDigit(s[..|s| - 1]) else false
  }

  /** The format as the PCRE pattern `^[A-Z][0-9]{9}$` matches it: without
      the D modifier, `$` also matches just before a final newline. */
  predicate FormatAsWritten(s: string)
    ensures FormatAsWritten(s) <==> WellFormed(s) || exists t :: WellFormed(t) && s == t + ['\n']
  {
    WellFormed(s) || (|s| == 11 && s[10] == '\n' && WellFormed(s[..10]))
  }

  /** `validate` as written: the regex of `FormatAsWritten`, then the check
      digit over everything but the last character compared with `s[9]`. */
  function ValidateAsWritten(s: string): (valid: bool)
    ensures !FormatAsWritten(s) ==> !valid
  {
    if FormatAsWritten(s) then IntVal(s[9]) as int == CheckDigit(s[..|s| - 1]) else false
  }
}
