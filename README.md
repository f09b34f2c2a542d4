# HugeInteger in Dafny

A model of `integer.py`: the `HugeInteger` class, an unsigned decimal integer held as
exactly 40 digits, most significant first. Each digit list stands for the number
`Σ digits[i]·10^(39−i)`. The model covers these parts of the class:

- construction and parsing, which zero-fills the text to 40 characters;
- printing, which strips leading zeros;
- the six comparisons, which Python computes as list order, and the zero test;
- schoolbook addition, subtraction and multiplication;
- long division and remainder by repeated subtraction.

The model has three modules:

- `DecimalDigits` (DecimalDigits.dfy) is the mathematics of digit lists. It defines
  `Width` (40), `Pow10` and `Capacity` (10^40), and the value `ValueOf` of a digit list. It
  also models Python's list comparison (`ListCompare`), `str.zfill` (`ZFill`),
  `str.lstrip('0')` (`LStripZeros`), and the text a digit list prints as (`Format`).
- `Integer` (Integer.dfy) is the class itself. `HugeInteger` has the field
  `digits: array<int>`, a ghost `Valid()` (40 cells, each 0..9) and a ghost `Value()`.
  - Operations that update state are methods with loops: `Parse`, `Add`, `Subtract`,
    `Multiply`, `Divide` and `Remainder`. `__str__`, the comparisons and `isZero` are
    functions.
  - An operation that raises in Python returns `Err(e)` of a `Result`. The four error
    kinds are `FormatError`, `Overflow`, `NegativeResult` and `DivisionByZero`.
  - Arithmetic returns a new `HugeInteger` and never changes its operands: none of those
    methods has a `modifies` clause.
  - Each loop invariant is a predicate over digit sequences (`AddedFrom`,
    `SubtractedFrom`, `MultipliedFrom`, `RowFrom`, `QuotientSoFar`, `RemainderSoFar`,
    `StoredUpTo`). A step lemma per loop iteration proves that the iteration preserves it.
    The exception is the inner subtraction loop of `SubtractWhileFits`, whose invariant is
    stated on the values directly.
  - `divide` and `remainder` share two pieces of code. `ShiftDigitIn` is the list shift
    `x.digits = x.digits[1:] + [d]`. `SubtractWhileFits` is the inner
    `while remainder >= other` loop.
- `Usage` (Usage.dfy) calls the class from outside:
  - divide, multiply back and add the remainder gives the dividend again;
  - printing and parsing are inverses;
  - one call for each error case;
  - small worked cases.

## Model

| member | source | states |
|---|---|---|
| Integer.HugeInteger.Value | integer.py:4 | a valid instance stands for a number in [0, 10^40) |
| Integer.HugeInteger.constructor | integer.py:2-6 | a new instance holds 40 zero digits (the default text "0" parsed) |
| Integer.HugeInteger.Parse | integer.py:8-21 | succeeds exactly for text of at most 40 ASCII digits. Longer text is refused with nothing written. Otherwise the zero-filled text is stored character by character up to the first non-digit, and the cells after it keep their old digits. On success the value is the value of the text |
| Integer.HugeInteger.Create | integer.py:2-21 | `HugeInteger(text)`: FormatError exactly when the text is not a numeral of at most 40 digits; otherwise a new instance whose digits are the zero-filled text and whose value is the text's value |
| Integer.HugeInteger.ToString | integer.py:23-28 | the printed text is canonical (digits only, nonempty, no leading zero unless it is "0") and stands for the instance's value |
| Integer.HugeInteger.IsEqualTo | integer.py:30-32 | true exactly when the two values are equal |
| Integer.HugeInteger.IsNotEqualTo | integer.py:34-36 | true exactly when the two values differ |
| Integer.HugeInteger.IsGreaterThan | integer.py:38-40 | list order on the digits is `>` on the values |
| Integer.HugeInteger.IsLessThan | integer.py:42-44 | list order on the digits is `<` on the values |
| Integer.HugeInteger.IsGreaterThanOrEqualTo | integer.py:46-48 | list order on the digits is `>=` on the values |
| Integer.HugeInteger.IsLessThanOrEqualTo | integer.py:50-52 | list order on the digits is `<=` on the values |
| Integer.HugeInteger.IsZero | integer.py:54-56 | all digits 0 exactly when the value is 0 |
| Integer.HugeInteger.Add | integer.py:58-71 | Overflow exactly when a + b >= 10^40; otherwise a new instance holding a + b. Operands unchanged |
| Integer.HugeInteger.Subtract | integer.py:73-90 | NegativeResult exactly when a < b; otherwise a new instance holding a − b with every digit in 0..9. Operands unchanged |
| Integer.HugeInteger.Multiply | integer.py:92-109 | Overflow exactly when a · b >= 10^40; otherwise a new instance holding a · b, taken from the low 40 accumulator cells. Operands unchanged |
| Integer.HugeInteger.Divide | integer.py:111-127 | DivisionByZero exactly when b = 0; otherwise a new instance holding a div b |
| Integer.HugeInteger.Remainder | integer.py:129-140 | DivisionByZero exactly when b = 0; otherwise an instance holding a mod b |
| Integer.HugeInteger.ShiftDigitIn | integer.py:121 | the list shift `digits[1:] + [d]` is a new list. With a leading 0 dropped, the value becomes 10·value + d |
| Integer.HugeInteger.SubtractWhileFits | integer.py:123-125 | repeated subtraction ends with what is left below the divisor, and left + count·b equals the starting value |
| Integer.StoreStep | integer.py:16-21 | storing the digit of character i keeps "characters before i are digits and stored over the old digits" |
| Integer.AddStep | integer.py:65-68 | one column: digit `(a[i]+b[i]+carry) % 10` and carry `// 10` keep result + carry·10^(40−i) equal to the sum of the operand suffixes |
| Integer.AddDone | integer.py:69-70 | after all columns a carry remains exactly when a + b >= 10^40; with no carry the result digits hold a + b |
| Integer.SubtractStep | integer.py:82-89 | one column: the digit, plus 10 on a borrow, keeps result − borrow·10^(40−i) equal to the difference of the operand suffixes |
| Integer.SubtractDone | integer.py:78-89 | when a >= b, the borrow out of index 0 is 0 and the result digits hold a − b |
| Integer.MultiplyStart | integer.py:97-98 | the 80 zero cells are a valid accumulator with no rows done |
| Integer.RowStart | integer.py:99-101 | a row starts with carry 0 and nothing of b taken |
| Integer.MultiplyStep | integer.py:101-104 | one cell: the carry stays in 0..9, every cell stays a digit, cells 0..i stay 0, and accumulator + carry·weight equals the rows done plus a[i]·(b's digits from j)·weight |
| Integer.RowDone | integer.py:105 | `temp_result[i]` is still 0 before `+= carry`. After it, the accumulator holds (a's digits from i)·b, and every cell is a digit |
| Integer.MultiplyDone | integer.py:106-108 | one of the top 40 cells is nonzero exactly when a · b >= 10^40; otherwise the low 40 cells hold a · b |
| Integer.DivisionStart | integer.py:118-119 | the zero quotient and remainder are the quotient and remainder of the empty prefix |
| Integer.RemainderShift | integer.py:120-121 | before each shift the running remainder is below the divisor and below 10^39, so the digit the shift drops is 0 |
| Integer.RemainderStep | integer.py:120-125 | after the subtractions the count is at most 9, what is left is the remainder of the longer prefix, and the quotient of that prefix is ten times the old quotient plus count |
| Integer.QuotientStep | integer.py:126 | the quotient's dropped digit is 0, and shifting the count in gives the quotient of the longer prefix |
| Integer.LongDivisionStep | integer.py:120-126 | for x and digit d: if 10·(x mod b) + d = count·b + rem with rem < b, then count <= 9, (10x+d) div b = 10·(x div b) + count, and (10x+d) mod b = rem |
| Integer.DivModBelow | integer.py:120-126 | quotient and remainder of x by b > 0 lie in [0, x] |
| DecimalDigits.ListCompare | integer.py:38-52 | Python's list comparison is −1, 0 or 1, and 0 exactly when the lists are equal |
| DecimalDigits.CompareIsNumeric | integer.py:30-52 | for equal-length digit lists, list comparison is < / = / > exactly when the values are |
| DecimalDigits.ValueBounds | integer.py:4 | n digits stand for a number in [0, 10^n) |
| DecimalDigits.ValueZero | integer.py:54-56 | digits stand for 0 exactly when they are all 0 |
| DecimalDigits.SameValueSameDigits | integer.py:4 | equal-length digit lists with the same value are equal |
| DecimalDigits.ValueOfNines | integer.py:69-70 | n nines stand for 10^n − 1, the largest n-digit number |
| DecimalDigits.FirstNonDigit | integer.py:16-20 | the position where parsing stops: all characters before it are digits, and the one at it is not |
| DecimalDigits.LStripZeros | integer.py:28 | `lstrip('0')` gives a suffix, every dropped character is '0', and the result is empty or starts with another character |
| DecimalDigits.PaddedNumeral | integer.py:16-21 | a numeral zero-filled to 40 is 40 digits standing for the numeral's value, and parsing never stops early |
| DecimalDigits.ZFillDigits | integer.py:13-18 | zero-filling text of at most 40 characters gives 40 characters, all digits exactly when the text is a numeral |
| DecimalDigits.FormatIsCanonical | integer.py:28 | the printed text of any digit list is canonical |
| DecimalDigits.FormatValue | integer.py:28 | the printed text stands for the value of the digits |
| DecimalDigits.FormatOfParsed | integer.py:13-28 | `str(HugeInteger(s))` is s without its leading zeros, or "0" |
| DecimalDigits.ParsedOfFormat | integer.py:13-28 | parsing the printed text of 40 digits gives back the same 40 digits |
| Usage.DivisionRecombines | integer.py:111-140 | add(multiply(divide(a,b), b), remainder(a,b)) equals a and overflows nowhere; only a zero divisor fails |
| Usage.PrintThenParse | integer.py:13-28 | `HugeInteger(str(h))` has h's digits |
| Usage.ParseThenPrint | integer.py:13-28 | `str(HugeInteger(s))` is s stripped of leading zeros, or "0" |
| Usage.LargestPlusOne | integer.py:58-71 | 40 nines plus 1 is Overflow |
| Usage.SmallerMinusLarger | integer.py:78-79 | 5 − 10 is NegativeResult |
| Usage.ByZero | integer.py:111-140 | divide and remainder by 0 are DivisionByZero |
| Usage.Malformed | integer.py:13-20 | "12a" and a 41-digit text are FormatError |
| Usage.CarryThrough | integer.py:58-71 | 999 + 1 = 1000 |
| Usage.BorrowThrough | integer.py:73-90 | 1000 − 1 = 999 |
| Usage.SmallProduct | integer.py:92-109 | 12 · 34 = 408 |
| Usage.SmallDivision | integer.py:111-140 | 100 div 7 = 14 and 100 mod 7 = 2 |

## Left out

- Python's `str.isdigit` accepts non-ASCII digits, and `int()` of some of those raises. Only
  the ASCII digits '0'..'9' are modelled; any other character is a non-digit.
- Exception classes and their message texts are left out. Each raise is one `Error`
  constructor.
- The example block at the end of the file (integer.py:142-153) is left out: it builds a
  40-digit and a 39-digit number and prints their sum and difference, and printing is
  I/O. `Usage` has small worked cases instead.
- Every member requires `Valid()` (40 cells, each 0..9). Python does not check this, and a
  caller could assign a malformed list to `digits` from outside the class. The model does
  not cover instances broken that way. Every constructor and operation keeps `Valid()`.
- Python's dynamic typing, where `other` could be anything with a `digits` attribute, is
  left out. `other` is a `HugeInteger`.
- `parse` writes `self.digits[i]` in place before it meets a bad character
  (integer.py:16-21), so `Parse` states exactly which cells were written. `Create`, like
  `__init__`, returns no instance when parsing fails.
- Object identity is modelled only as far as freshness goes: arithmetic returns new
  objects. `Remainder` may return the running remainder object itself when no subtraction
  happened in the last step, as Python does.
