# KVNR validator — a verified Dafny model

This project models the validator of the German statutory health-insurance
number (Krankenversichertennummer, KVNR) in `src/KVNR.php`. A KVNR is one
upper-case letter followed by nine digits. The last digit is a check digit
over the first nine characters. It is computed in these steps:

1. Map the letter to its position in the alphabet (A = 1 … Z = 26) and split
   that number into two zero-padded decimal digits.
2. Append the eight digits that follow, giving ten digits.
3. Weight the ten digits alternately by 1 and 2.
4. Fold any two-digit product into the sum of its digits.
5. Sum the ten values and reduce modulo 10.

The project has two modules:

- `KVNR` (`kvnr.dfy`) holds the operations.
  - `Validate` is a function, like the single conditional expression of `KVNR::validate`.
  - `ComputeCheckDigit` is a method. Like `KVNR::computeCheckDigit`, it fills a ten-element digit array in one loop and the weighted array in a second one. It is proved equal to the pure specification `CheckDigit`.
  - `ValidateAsWritten` models the PHP format test exactly as written (see Findings).
- `KVNRProperties` (`kvnr_properties.dfy`) holds lemmas that relate several operations:
  - the folding arithmetic;
  - which characters the check digit depends on;
  - that every well-formed body has exactly one valid last digit;
  - that changing a single digit is always detected;
  - a worked example.

The entry points `Validate`, `ValidateAsWritten`, `CheckDigit` and `ComputeCheckDigit` have no precondition: like the PHP code, they are total. The helpers `Digits`, `FoldedAt` and `DigitChar` have preconditions, and those hold wherever they are used. In PHP, their counterparts run only under the guard at `src/KVNR.php:53`. PHP reads a string offset past the end as `""`, `ord("")` is 0, and `intval` of a non-digit is 0. The model writes these rules out (`ValueAt`, `LetterNumber`, `IntVal`), so `CheckDigit` is defined for every string, not only for the nine-character bodies that `validate` passes in. The -1 sentinel is kept. It is returned exactly when the first character is not `A`–`Z`, and it can never equal the value of a digit.

The PHP string helpers used for arithmetic are modelled as follows:
- `str_pad(strval($n), 2, "0", STR_PAD_LEFT)` followed by `intval` of each character is `n / 10` and `n % 10` (valid for 1 ≤ n ≤ 26).
- `array_sum(str_split($p))` is `DigitSum(p)`, the sum of the decimal digits of p.
- The outer `array_sum` is `Sum` over a sequence.
- The sum is a natural number, so PHP's truncating `%` and Dafny's Euclidean `%` agree.

## Model

| member | source | states |
|---|---|---|
| `KVNR.WellFormed` | src/KVNR.php:28 | the intended format, one letter `A`–`Z` and exactly nine digits; it guarantees that the letter guard of the check-digit computation passes and that every digit position reads its true value |
| `KVNR.WellFormedBody` | src/KVNR.php:30 | the nine characters `validate` passes on; such a body followed by any digit is well-formed |
| `KVNR.IntVal` | src/KVNR.php:60-65 | `intval` of one character is at most 9; a digit maps to its value, and anything else maps to 0 |
| `KVNR.ValueAt` | src/KVNR.php:65 | reading an offset gives a value in 0..9; an offset past the end reads as `""` and gives 0; a digit gives its value |
| `KVNR.Sum` | src/KVNR.php:81 | `array_sum` of a non-empty sequence is at least its first element |
| `KVNRProperties.SumBound` | src/KVNR.php:81 | the sum of n values in 0..9 is at most 9 * n, so the sum of the weighted array lies in 0..90 |
| `KVNR.FormatAsWritten` | src/KVNR.php:28 | the regex as PCRE reads `$`: the string is well-formed, or it is a well-formed string followed by exactly one newline |
| `KVNR.LetterNumber` | src/KVNR.php:50-53 | `ord(c) - 64` lies in 1..26 exactly when the first character exists and is `A`–`Z`; in that case it is the letter's position in the alphabet |
| `KVNR.Weight` | src/KVNR.php:71 | the weight is 1 or 2, and it is 1 exactly at even positions |
| `KVNR.DigitSum` | src/KVNR.php:76-77 | the digit sum of a product never exceeds it; a one-digit value is kept and a larger value strictly shrinks |
| `KVNR.Digits` | src/KVNR.php:54-66 | the digit array has ten entries; the two leading entries are the decimal digits of the letter number (`d[0] * 10 + d[1]` gives it back, with `d[0] <= 2`); entries 2..9 are the values of characters 1..8 in order; every entry is in 0..9 |
| `KVNR.FoldedAt` | src/KVNR.php:69-77 | a digit times its weight, folded, is again at most 9 |
| `KVNR.Folded` | src/KVNR.php:68-78 | the weighted array has the digit array's length, and each entry that comes from a digit lies in 0..9 |
| `KVNR.CheckDigit` | src/KVNR.php:47-85 | the result lies in -1..9, and it is the -1 sentinel exactly when the first character is not `A`–`Z` |
| `KVNR.ComputeCheckDigit` | src/KVNR.php:47-85 | the two-loop array computation returns exactly `CheckDigit(body)`, for every input string |
| `KVNR.DigitChar` | src/KVNR.php:33 | the character of a digit 0..9 is a digit character whose `intval` is that digit |
| `KVNR.Validate` | src/KVNR.php:25-37 | total (no precondition); false for every string outside the format; true exactly when the format holds and `s[9]` is the character of the check digit of `s[0..9)` |
| `KVNR.ValidateAsWritten` | src/KVNR.php:28-36 | the as-written validation is false whenever the regex `^[A-Z][0-9]{9}$` (with PCRE's `$`) does not match |
| `KVNRProperties.FoldSmallProduct` | src/KVNR.php:76-77 | a product of at most 18 folds to itself if it is below 10, otherwise to the sum of its two digits, which is the product minus 9; the folded value is always a digit |
| `KVNRProperties.DigitSumMod9` | src/KVNR.php:76-77 | folding preserves the value modulo 9 |
| `KVNRProperties.FoldInjective` | src/KVNR.php:69-77 | for a fixed position, two different digits always fold to different values |
| `KVNRProperties.LetterBoundaries` | src/KVNR.php:50-61 | 'A' gives the leading digits [0, 1] and 'Z' gives [2, 6]; different letters give different leading pairs |
| `KVNRProperties.CheckDigitReadsNine` | src/KVNR.php:50-66 | the check digit of a string depends only on its first nine characters |
| `KVNRProperties.CheckDigitDetectsSubstitution` | src/KVNR.php:64-81 | replacing any one of the eight body digits with a different digit changes the check digit |
| `KVNRProperties.ExactlyOneCheckDigit` | src/KVNR.php:30-33 | for every well-formed nine-character body, the check digit is in 0..9, appending its character gives a valid KVNR, and no other last digit does |
| `KVNRProperties.SubstitutionInvalidates` | src/KVNR.php:25-37 | changing any one digit of a valid KVNR, the check digit included, to a different digit makes it invalid |
| `KVNRProperties.WorkedExampleCheckDigit` | src/KVNR.php:50-81 | for "A12345678" the digit array is 0 1 1 2 3 4 5 6 7 8, the folded values are 0 2 1 4 3 8 5 3 7 7, and the check digit is 0 |
| `KVNRProperties.WorkedExampleValidate` | src/KVNR.php:25-37 | "A123456780" is valid; "A123456789", which has its last digit flipped, is not |
| `KVNRProperties.MalformedRejected` | src/KVNR.php:28-36 | these inputs are rejected: the empty string, a lower-case letter, a leading digit, 9 characters, 11 characters, and a letter in second place |
| `KVNRProperties.ValidateAsWrittenCharacterised` | src/KVNR.php:28-33 | the as-written validation accepts exactly the valid KVNRs and the valid KVNRs followed by one newline |
| `KVNRProperties.TrailingNewlineAccepted` | src/KVNR.php:28 | as written, "A123456780\n" is accepted; under the intended format it is not |

## Left out

- Sum: its own contract states only that the sum is at least its first element. Its bound is the separate lemma `SumBound`, because a quantified postcondition on `Sum` made the concrete examples too costly to verify.
- The PCRE engine and `preg_match`. The format is an explicit predicate: length 10, first character `A`–`Z`, the rest `0`–`9`. `FormatAsWritten` adds the one extra case that PCRE's `$` admits.
- PHP loose comparison (`$kvnr[9] == $checkDigit`, a string against an int). It is modelled as comparing the integer value of `s[9]` with the result. For a digit character this is what PHP does.
- PHP's notices or warnings for reading a string offset past the end. Only the value read (`""`) is modelled. `validate` never reaches such a read.
- Bytes versus characters. PHP strings are byte strings and the model uses Dafny characters. Every character the format admits is ASCII. A non-ASCII first character yields the -1 sentinel in both.
- The namespace, the class wrapper and Composer packaging. The static methods are functions and methods of the module `KVNR`.

## Findings

| source | as written | input that shows it | evidently intended | confidence | as-written member | corrected member |
|---|---|---|---|---|---|---|
| src/KVNR.php:28 | the pattern `/^[A-Z][0-9]{9}$/` has no `D` modifier, so `$` also matches before a final newline. An 11-character string ending in `\n` passes. The check digit is then computed over the first ten characters, which reads only the first nine, and compared with `s[9]` | `"A123456780\n"` | exactly ten characters: one letter and nine digits | not executed; follows from PCRE's documented `$` semantics | `KVNRProperties.TrailingNewlineAccepted` (on `KVNR.ValidateAsWritten`) | `KVNR.Validate` |
