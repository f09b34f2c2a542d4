/** The HugeInteger class: an unsigned decimal integer held as exactly Width digits,
    most significant first, with parsing, printing, comparisons and schoolbook
    arithmetic. Every operation that fails gives an Error instead of raising. */
module Integer {
  import opened DecimalDigits

  /** The failures of the class, one per exception it raises. */
  datatype Error =
    | FormatError     // parse: text longer than Width, or a character that is not a digit
    | Overflow        // add, multiply: the true result needs more than Width digits
    | NegativeResult  // subtract: the minuend is smaller than the subtrahend
    | DivisionByZero  // divide, remainder: the divisor is zero

  datatype Result<T> = Ok(value: T) | Err(error: Error)

  /** A new array holding the elements of s. */
  method NewArray(s: seq<int>) returns (b: array<int>)
    ensures fresh(b) && b[..] == s
  {
    b := new int[|s|](k => if 0 <= k < |s| then s[k] else 0);
  }

  /** A new array holding a[1..] followed by d: the list `a[1:] + [d]`, which drops the
      first element and appends d. */
  method ShiftIn(a: array<int>, d: int) returns (b: array<int>)
    requires a.Length > 0
    ensures fresh(b) && b[..] == a[1..] + [d]
  {
    b := NewArray(a[1..] + [d]);
  }

  class HugeInteger {
    var digits: array<int>

    /** Exactly Width cells, each a decimal digit. */
    ghost predicate Valid()
      reads this, digits
    {
      digits.Length == Width && IsDigits(digits[..])
    }

    /** The number the digits stand for. */
    ghost function Value(): (v: int)
      reads this, digits
      requires Valid()
      ensures 0 <= v < Capacity
    {
      ValueBounds(digits[..]);
      CapacityIsPow10();
      ValueOf(digits[..])
    }

    /** `HugeInteger()`: Width zeros, over which the default text "0" is parsed. */
    constructor ()
      ensures Valid() && fresh(digits)
      ensures digits[..] == Zeros(Width)
    {
      digits := new int[Width](_ => 0);
      new;
      var ok := Parse("0");
      PaddedNumeral("0");
      assert [0][..0] == [];
      ValueZero(digits[..]);
    }

    /** `parse`: text longer than Width is refused untouched; otherwise the text is
        zero-filled to Width and each character's digit is stored in turn, stopping at the
        first character that is not a digit, so that the digits stored before it stay. */
    method Parse(text: string) returns (ok: bool)
      requires Valid()
      modifies digits
      ensures Valid()
      ensures ok <==> IsNumeral(text)
      ensures |text| > Width ==> digits[..] == old(digits[..])
      ensures |text| <= Width ==>
        var padded := ZFill(text, Width);
        var j := FirstNonDigit(padded);
        digits[..] == DigitsOfText(padded[..j]) + old(digits[..])[j..]
      ensures ok ==> digits[..] == DigitsOfText(ZFill(text, Width)) && Value() == TextValue(text)
    {
      if |text| > Width {
        return false;
      }
      var padded := ZFill(text, Width);
      ZFillDigits(text);
      ghost var before := digits[..];
      for i := 0 to Width
        invariant StoredUpTo(padded, before, digits[..], i)
      {
        if !IsDigitChar(padded[i]) {
          assert FirstNonDigit(padded) == i;
          return false;
        }
        ghost var current := digits[..];
        digits[i] := CharValue(padded[i]);
        assert digits[..] == current[i := CharValue(padded[i])];
        StoreStep(padded, before, current, i);
      }
      assert padded[..Width] == padded;
      assert FirstNonDigit(padded) == Width;
      PaddedNumeral(text);
      return true;
    }

    /** `HugeInteger(text)`: a new instance holding the parsed text, or FormatError. */
    static method Create(text: string) returns (r: Result<HugeInteger>)
      ensures r.Err? <==> !IsNumeral(text)
      ensures r.Err? ==> r.error == FormatError
      ensures r.Ok? ==> fresh(r.value) && fresh(r.value.digits) && r.value.Valid()
      ensures r.Ok? ==> r.value.digits[..] == DigitsOfText(ZFill(text, Width))
      ensures r.Ok? ==> r.value.Value() == TextValue(text)
    {
      var h := new HugeInteger();
      var ok := h.Parse(text);
      if ok {
        r := Ok(h);
      } else {
        r := Err(FormatError);
      }
    }

    /** `__str__`: canonical decimal text (no leading zeros, "0" for zero) standing for
        the value. */
    function ToString(): (s: string)
      reads this, digits
      requires Valid()
      ensures IsCanonical(s) && TextValue(s) == Value()
    {
      FormatIsCanonical(digits[..]);
      FormatValue(digits[..]);
      Format(digits[..])
    }

    /** `isEqualTo`: the digit lists are equal, which is when the values are. */
    function IsEqualTo(other: HugeInteger): (b: bool)
      reads this, digits, other, other.digits
      requires Valid() && other.Valid()
      ensures b <==> Value() == other.Value()
    {
      CompareIsNumeric(digits[..], other.digits[..]);
      digits[..] == other.digits[..]
    }

    /** `isNotEqualTo`: the negation of isEqualTo. */
    function IsNotEqualTo(other: HugeInteger): (b: bool)
      reads this, digits, other, other.digits
      requires Valid() && other.Valid()
      ensures b <==> Value() != other.Value()
    {
      !IsEqualTo(other)
    }

    /** `isGreaterThan`: list order on the digits, which is numeric order. */
    function IsGreaterThan(other: HugeInteger): (b: bool)
      reads this, digits, other, other.digits
      requires Valid() && other.Valid()
      ensures b <==> Value() > other.Value()
    {
      CompareIsNumeric(digits[..], other.digits[..]);
      ListCompare(digits[..], other.digits[..]) > 0
    }

    /** `isLessThan`. */
    function IsLessThan(other: HugeInteger): (b: bool)
      reads this, digits, other, other.digits
      requires Valid() && other.Valid()
      ensures b <==> Value() < other.Value()
    {
      CompareIsNumeric(digits[..], other.digits[..]);
      ListCompare(digits[..], other.digits[..]) < 0
    }

    /** `isGreaterThanOrEqualTo`. */
    function IsGreaterThanOrEqualTo(other: HugeInteger): (b: bool)
      reads this, digits, other, other.digits
      requires Valid() && other.Valid()
      ensures b <==> Value() >= other.Value()
    {
      CompareIsNumeric(digits[..], other.digits[..]);
      ListCompare(digits[..], other.digits[..]) >= 0
    }

    /** `isLessThanOrEqualTo`. */
    function IsLessThanOrEqualTo(other: HugeInteger): (b: bool)
      reads this, digits, other, other.digits
      requires Valid() && other.Valid()
      ensures b <==> Value() <= other.Value()
    {
      CompareIsNumeric(digits[..], other.digits[..]);
      ListCompare(digits[..], other.digits[..]) <= 0
    }

    /** `isZero`: every digit is 0, which is when the value is 0. */
    function IsZero(): (b: bool)
      reads this, digits
      requires Valid()
      ensures b <==> Value() == 0
    {
      ValueZero(digits[..]);
      forall k :: 0 <= k < Width ==> digits[k] == 0
    }

    /** `add`: schoolbook addition from the least significant digit, each result digit the
        sum's last digit and the carry (0 or 1) passed on; a carry out of the most
        significant digit is Overflow, which happens exactly when the sum needs more than
        Width digits. The operands are not changed. */
    method Add(other: HugeInteger) returns (r: Result<HugeInteger>)
      requires Valid() && other.Valid()
      ensures r.Err? <==> Value() + other.Value() >= Capacity
      ensures r.Err? ==> r.error == Overflow
      ensures r.Ok? ==> fresh(r.value) && fresh(r.value.digits) && r.value.Valid()
      ensures r.Ok? ==> r.value.Value() == Value() + other.Value()
    {
      var result := new HugeInteger();
      var carry := 0;
      var i := Width;
      while i > 0
        invariant 0 <= i <= Width
        invariant fresh(result) && fresh(result.digits) && result.Valid()
        invariant 0 <= carry <= 1
        invariant AddedFrom(digits[..], other.digits[..], result.digits[..], i, carry)
      {
        i := i - 1;
        ghost var before := result.digits[..];
        var sum := digits[i] + other.digits[i] + carry;
        result.digits[i] := sum % 10;
        assert result.digits[..] == before[i := sum % 10];
        AddStep(digits[..], other.digits[..], before, i, carry, sum);
        carry := sum / 10;
      }
      AddDone(digits[..], other.digits[..], result.digits[..], carry);
      if carry > 0 {
        return Err(Overflow);
      }
      return Ok(result);
    }

    /** `subtract`: NegativeResult when the minuend is smaller; otherwise schoolbook
        subtraction from the least significant digit, borrowing 10 from the next column
        when a column goes negative. Every result digit is a digit, and no borrow is left
        over past the most significant digit. The operands are not changed. */
    method Subtract(other: HugeInteger) returns (r: Result<HugeInteger>)
      requires Valid() && other.Valid()
      ensures r.Err? <==> Value() < other.Value()
      ensures r.Err? ==> r.error == NegativeResult
      ensures r.Ok? ==> fresh(r.value) && fresh(r.value.digits) && r.value.Valid()
      ensures r.Ok? ==> r.value.Value() == Value() - other.Value()
    {
      if IsLessThan(other) {
        return Err(NegativeResult);
      }
      var result := new HugeInteger();
      var borrow := 0;
      var i := Width;
      while i > 0
        invariant 0 <= i <= Width
        invariant fresh(result) && fresh(result.digits) && result.Valid()
        invariant 0 <= borrow <= 1
        invariant SubtractedFrom(digits[..], other.digits[..], result.digits[..], i, borrow)
      {
        i := i - 1;
        ghost var before, borrowIn := result.digits[..], borrow;
        var diff := digits[i] - other.digits[i] - borrow;
        if diff < 0 {
          diff := diff + 10;
          borrow := 1;
        } else {
          borrow := 0;
        }
        result.digits[i] := diff;
        assert result.digits[..] == before[i := diff];
        SubtractStep(digits[..], other.digits[..], before, i, borrowIn, borrow, diff);
      }
      SubtractDone(digits[..], other.digits[..], result.digits[..], borrow);
      return Ok(result);
    }

    /** `multiply`: schoolbook multiplication into a 2·Width-digit accumulator. Row i adds
        digit i of this number times the other number into cells i+1 to i+Width, passing a
        carry (at most 9) leftwards, and the row's last carry goes into cell i, still 0
        then. A nonzero digit among the top Width cells is Overflow, which happens exactly
        when the product needs more than Width digits; otherwise the result is the bottom
        Width cells. The operands are not changed. */
    method Multiply(other: HugeInteger) returns (r: Result<HugeInteger>)
      requires Valid() && other.Valid()
      ensures r.Err? <==> Value() * other.Value() >= Capacity
      ensures r.Err? ==> r.error == Overflow
      ensures r.Ok? ==> fresh(r.value) && fresh(r.value.digits) && r.value.Valid()
      ensures r.Ok? ==> r.value.Value() == Value() * other.Value()
    {
      var result := new HugeInteger();
      var product := new int[2 * Width](_ => 0);
      ghost var a, b := digits[..], other.digits[..];
      MultiplyStart(a, b);
      assert product[..] == seq(2 * Width, _ => 0);
      var i := Width;
      while i > 0
        invariant 0 <= i <= Width
        invariant MultipliedFrom(a, b, product[..], i)
      {
        i := i - 1;
        var carry := 0;
        var j := Width;
        RowStart(a, b, product[..], i);
        while j > 0
          invariant 0 <= j <= Width && 0 <= carry <= 9
          invariant RowFrom(a, b, product[..], i, j, carry)
        {
          j := j - 1;
          var cell := digits[i] * other.digits[j] + product[i + j + 1] + carry;
          ghost var current := product[..];
          product[i + j + 1] := cell % 10;
          assert product[..] == current[i + j + 1 := cell % 10];
          MultiplyStep(a, b, current, i, j, carry, cell);
          carry := cell / 10;
        }
        ghost var current := product[..];
        assert product[..i + 1][i] == 0;
        product[i] := product[i] + carry;
        RowDone(a, b, current, product[..], i, carry);
      }
      MultiplyDone(a, b, product[..]);
      assert Value() == ValueOf(a) && other.Value() == ValueOf(b);
      if exists k :: 0 <= k < Width && product[k] != 0 {
        return Err(Overflow);
      }
      ghost var low := product[Width..];
      assert |low| == Width && IsDigits(low);
      result.digits := NewArray(product[Width..]);
      assert result.digits[..] == low;
      return Ok(result);
    }

    /** `divide`: long division. The dividend's digits are shifted one by one into a
        running remainder, from which the divisor is subtracted as long as it fits; the
        number of subtractions (at most 9) is shifted into the quotient. DivisionByZero
        when the divisor is zero; otherwise the quotient is the integer quotient of the
        values. The operands are not changed. */
    method Divide(other: HugeInteger) returns (r: Result<HugeInteger>)
      requires Valid() && other.Valid()
      ensures r.Err? <==> other.Value() == 0
      ensures r.Err? ==> r.error == DivisionByZero
      ensures r.Ok? ==> fresh(r.value) && fresh(r.value.digits) && r.value.Valid()
      ensures r.Ok? ==> r.value.Value() == Value() / other.Value()
    {
      if other.IsZero() {
        return Err(DivisionByZero);
      }
      var result := new HugeInteger();
      var remainder := new HugeInteger();
      ghost var a, b := digits[..], other.Value();
      DivisionStart(a, b, result.digits[..]);
      for p := 0 to Width
        invariant fresh(result) && fresh(result.digits) && fresh(remainder) && result != remainder
        invariant result.digits.Length == remainder.digits.Length == Width
        invariant QuotientSoFar(a, p, b, result.digits[..])
        invariant RemainderSoFar(a, p, b, remainder.digits[..])
      {
        ghost var before := remainder.digits[..];
        RemainderShift(a, p, b, before);
        remainder.ShiftDigitIn(digits[p]);
        var count;
        remainder, count := SubtractWhileFits(remainder, other);
        RemainderStep(a, p, b, before, remainder.digits[..], count);
        QuotientStep(a, p, b, result.digits[..], count);
        result.ShiftDigitIn(count);
      }
      assert a[..Width] == a;
      return Ok(result);
    }

    /** `self.digits = self.digits[1:] + [d]`, as divide and remainder do to their running
        remainder and quotient: a new digit list, the leading digit (here 0) dropped and d
        appended, which multiplies the value by ten and adds d. */
    method ShiftDigitIn(d: int)
      requires Valid() && IsDigit(d) && digits[0] == 0
      modifies this
      ensures fresh(digits) && Valid()
      ensures digits[..] == old(digits[1..]) + [d]
      ensures Value() == old(Value()) * 10 + d
    {
      ShiftInValue(digits[..], d);
      digits := ShiftIn(digits, d);
    }

    /** The inner loop of divide and remainder: the divisor is subtracted from the running
        remainder as long as the remainder is at least the divisor. What is left is below
        the divisor, and count is the number of subtractions. */
    static method SubtractWhileFits(remainder: HugeInteger, other: HugeInteger) returns (rest: HugeInteger, count: int)
      requires remainder.Valid() && other.Valid() && other.Value() > 0
      ensures rest == remainder || (fresh(rest) && fresh(rest.digits))
      ensures rest.Valid() && 0 <= rest.Value() < other.Value()
      ensures count >= 0 && rest.Value() + count * other.Value() == remainder.Value()
    {
      rest, count := remainder, 0;
      while rest.IsGreaterThanOrEqualTo(other)
        invariant rest == remainder || (fresh(rest) && fresh(rest.digits))
        invariant rest.Valid()
        invariant count >= 0 && rest.Value() + count * other.Value() == remainder.Value()
        decreases rest.Value()
      {
        var difference := rest.Subtract(other);
        rest := difference.value;
        assert (count + 1) * other.Value() == count * other.Value() + other.Value();
        count := count + 1;
      }
    }

    /** `remainder`: the same long division keeping only the running remainder.
        DivisionByZero when the divisor is zero; otherwise the remainder of the values. The
        operands are not changed. */
    method Remainder(other: HugeInteger) returns (r: Result<HugeInteger>)
      requires Valid() && other.Valid()
      ensures r.Err? <==> other.Value() == 0
      ensures r.Err? ==> r.error == DivisionByZero
      ensures r.Ok? ==> fresh(r.value) && fresh(r.value.digits) && r.value.Valid()
      ensures r.Ok? ==> r.value.Value() == Value() % other.Value()
    {
      if other.IsZero() {
        return Err(DivisionByZero);
      }
      var remainder := new HugeInteger();
      ghost var a, b := digits[..], other.Value();
      DivisionStart(a, b, remainder.digits[..]);
      for p := 0 to Width
        invariant fresh(remainder) && fresh(remainder.digits) && remainder.digits.Length == Width
        invariant RemainderSoFar(a, p, b, remainder.digits[..])
      {
        ghost var before := remainder.digits[..];
        RemainderShift(a, p, b, before);
        remainder.ShiftDigitIn(digits[p]);
        var count;
        remainder, count := SubtractWhileFits(remainder, other);
        RemainderStep(a, p, b, before, remainder.digits[..], count);
      }
      assert a[..Width] == a;
      return Ok(remainder);
    }
  }

  /** Characters 0 to i-1 of the padded text are digits and have been stored in turn over
      the digits held before. */
  ghost predicate StoredUpTo(padded: string, before: seq<int>, d: seq<int>, i: nat)
  {
    i <= |padded| && i <= |before| &&
    (forall k :: 0 <= k < i ==> IsDigitChar(padded[k])) &&
    d == DigitsOfText(padded[..i]) + before[i..]
  }

  /** Storing the digit of character i, when it is a digit, extends the stored prefix. */
  lemma {:induction false} StoreStep(padded: string, before: seq<int>, d: seq<int>, i: nat)
    requires StoredUpTo(padded, before, d, i) && i < |padded| && i < |before|
    requires IsDigitChar(padded[i])
    ensures StoredUpTo(padded, before, d[i := CharValue(padded[i])], i + 1)
  {
    assert padded[..i + 1] == padded[..i] + [padded[i]];
    assert DigitsOfText(padded[..i + 1]) == DigitsOfText(padded[..i]) + [CharValue(padded[i])];
  }

  /** The columns from i on are added: the digits written there, with the carry out of
      column i weighing 10^(|r|-i), make the sum of the operands' digits from i on. */
  ghost predicate AddedFrom(a: seq<int>, b: seq<int>, r: seq<int>, i: nat, carry: int)
  {
    |a| == |b| == |r| && i <= |r| &&
    ValueOf(r[i..]) + carry * Pow10(|r| - i) == ValueOf(a[i..]) + ValueOf(b[i..])
  }

  /** Adding column i: its digit is the column sum's last digit and the carry is the rest. */
  lemma {:induction false} AddStep(a: seq<int>, b: seq<int>, r: seq<int>, i: nat, carryIn: int, sum: int)
    requires i < |r| && AddedFrom(a, b, r, i + 1, carryIn)
    requires sum == a[i] + b[i] + carryIn
    ensures AddedFrom(a, b, r[i := sum % 10], i, sum / 10)
  {
    var r' := r[i := sum % 10];
    assert r'[i..][1..] == r[i + 1..];
    assert a[i..][1..] == a[i + 1..] && b[i..][1..] == b[i + 1..];
    var p := Pow10(|r| - 1 - i);
    ValueFront(a[i..]);
    ValueFront(b[i..]);
    ValueFront(r'[i..]);
    assert Pow10(|r| - i) == 10 * p;
    AddColumnArith(a[i], b[i], carryIn, sum, p, ValueOf(a[i + 1..]), ValueOf(b[i + 1..]), ValueOf(r[i + 1..]));
  }

  lemma {:induction false} AddColumnArith(a0: int, b0: int, c: int, sum: int, p: int, a1: int, b1: int, r1: int)
    requires sum == a0 + b0 + c
    requires r1 + c * p == a1 + b1
    ensures (sum % 10) * p + r1 + (sum / 10) * (10 * p) == (a0 * p + a1) + (b0 * p + b1)
  {
    SplitDigit(sum, p);
    assert sum * p == a0 * p + b0 * p + c * p;
  }

  /** All Width columns added: a carry is left exactly when the sum does not fit in Width
      digits, and otherwise the digits written are the sum. */
  lemma {:induction false} AddDone(a: seq<int>, b: seq<int>, r: seq<int>, carry: int)
    requires |r| == Width && IsDigits(r) && 0 <= carry <= 1 && AddedFrom(a, b, r, 0, carry)
    ensures carry > 0 <==> ValueOf(a) + ValueOf(b) >= Capacity
    ensures carry == 0 ==> ValueOf(r) == ValueOf(a) + ValueOf(b)
  {
    assert r[0..] == r && a[0..] == a && b[0..] == b;
    ValueBounds(r);
    CapacityIsPow10();
  }

  /** The columns from i on are subtracted: the digits written there, less the borrow out
      of column i weighing 10^(|r|-i), make the difference of the operands' digits from i
      on. */
  ghost predicate SubtractedFrom(a: seq<int>, b: seq<int>, r: seq<int>, i: nat, borrow: int)
  {
    |a| == |b| == |r| && i <= |r| &&
    ValueOf(r[i..]) - borrow * Pow10(|r| - i) == ValueOf(a[i..]) - ValueOf(b[i..])
  }

  /** Subtracting column i: its digit is the column difference, plus 10 when a borrow is
      taken from the next column. */
  lemma {:induction false} SubtractStep(a: seq<int>, b: seq<int>, r: seq<int>, i: nat, borrowIn: int, borrowOut: int, v: int)
    requires i < |r| && SubtractedFrom(a, b, r, i + 1, borrowIn)
    requires v - 10 * borrowOut == a[i] - b[i] - borrowIn
    ensures SubtractedFrom(a, b, r[i := v], i, borrowOut)
  {
    var r' := r[i := v];
    assert r'[i..][1..] == r[i + 1..];
    assert a[i..][1..] == a[i + 1..] && b[i..][1..] == b[i + 1..];
    var p := Pow10(|r| - 1 - i);
    ValueFront(a[i..]);
    ValueFront(b[i..]);
    ValueFront(r'[i..]);
    assert Pow10(|r| - i) == 10 * p;
    SubtractColumnArith(a[i], b[i], v, borrowIn, borrowOut, p, ValueOf(a[i + 1..]), ValueOf(b[i + 1..]), ValueOf(r[i + 1..]));
  }

  lemma {:induction false} SubtractColumnArith(a0: int, b0: int, r0: int, bin: int, bout: int, p: int, a1: int, b1: int, r1: int)
    requires r0 - 10 * bout == a0 - b0 - bin
    requires r1 - bin * p == a1 - b1
    ensures r0 * p + r1 - bout * (10 * p) == (a0 * p + a1) - (b0 * p + b1)
  {
    assert (r0 - 10 * bout) * p == a0 * p - b0 * p - bin * p;
  }

  /** All Width columns subtracted from a minuend at least the subtrahend: no borrow is
      left and the digits written are the difference. */
  lemma {:induction false} SubtractDone(a: seq<int>, b: seq<int>, r: seq<int>, borrow: int)
    requires IsDigits(r) && 0 <= borrow <= 1 && SubtractedFrom(a, b, r, 0, borrow)
    requires ValueOf(a) >= ValueOf(b)
    ensures borrow == 0 && ValueOf(r) == ValueOf(a) - ValueOf(b)
  {
    assert r[0..] == r && a[0..] == a && b[0..] == b;
    ValueBounds(r);
  }

  /** Rows i to |a|-1 of the multiplication are done: the accumulator holds digits, its
      cells 0 to i are still 0, and it stands for the value of a's digits from i on times
      the value of b. */
  ghost predicate MultipliedFrom(a: seq<int>, b: seq<int>, acc: seq<int>, i: nat)
  {
    |a| == |b| && |acc| == 2 * |a| && i <= |a| && IsDigits(a) && IsDigits(b) &&
    IsDigits(acc) && acc[..i] == Zeros(i) &&
    ValueOf(acc) == ValueOf(a[i..]) * ValueOf(b)
  }

  /** Row i is done from column j on: cells 0 to i are still 0, and the accumulator with
      the carry into cell i+j stands for the rows before plus a[i] times b's digits from
      j on, at a[i]'s weight. */
  ghost predicate RowFrom(a: seq<int>, b: seq<int>, acc: seq<int>, i: nat, j: nat, carry: int)
  {
    |a| == |b| && |acc| == 2 * |a| && i < |a| && j <= |b| && IsDigits(a) && IsDigits(b) &&
    IsDigits(acc) && acc[..i + 1] == Zeros(i + 1) && RowValue(a, b, acc, i, j, carry)
  }

  /** The numeric part of RowFrom. */
  ghost predicate RowValue(a: seq<int>, b: seq<int>, acc: seq<int>, i: nat, j: nat, carry: int)
    requires |a| == |b| && i < |a| && j <= |b|
  {
    ValueOf(acc) + carry * Pow10(2 * |a| - 1 - i - j)
      == ValueOf(a[i + 1..]) * ValueOf(b) + a[i] * ValueOf(b[j..]) * Pow10(|a| - 1 - i)
  }

  /** Before the first row the accumulator is all zeros and stands for nothing. */
  lemma {:induction false} MultiplyStart(a: seq<int>, b: seq<int>)
    requires |a| == |b| && IsDigits(a) && IsDigits(b)
    ensures MultipliedFrom(a, b, seq(2 * |a|, _ => 0), |a|)
  {
    var acc := seq(2 * |a|, _ => 0);
    assert acc == Zeros(2 * |a|);
    ValueZero(acc);
    assert a[|a|..] == [];
    assert acc[..|a|] == Zeros(|a|);
  }

  /** A row starts with carry 0 and no column of b taken. */
  lemma {:induction false} RowStart(a: seq<int>, b: seq<int>, acc: seq<int>, i: nat)
    requires i < |a| && MultipliedFrom(a, b, acc, i + 1)
    ensures RowFrom(a, b, acc, i, |b|, 0)
  {
    assert b[|b|..] == [];
  }

  /** Column j of row i: the cell i+j+1 gets the last digit of a[i]·b[j] plus the cell
      plus the carry, and the rest (at most 9) is carried on. */
  lemma {:induction false} MultiplyStep(a: seq<int>, b: seq<int>, acc: seq<int>, i: nat, j: nat, carry: int, cell: int)
    requires j < |b| && RowFrom(a, b, acc, i, j + 1, carry) && 0 <= carry <= 9
    requires cell == a[i] * b[j] + acc[i + j + 1] + carry
    ensures 0 <= cell / 10 <= 9
    ensures RowFrom(a, b, acc[i + j + 1 := cell % 10], i, j, cell / 10)
  {
    var acc' := acc[i + j + 1 := cell % 10];
    ProductOfDigits(a[i], b[j]);
    assert IsDigits(acc');
    assert acc'[..i + 1] == acc[..i + 1];
    RowValueStep(a, b, acc, i, j, carry, cell);
  }

  /** The numeric part of MultiplyStep. */
  lemma {:induction false} RowValueStep(a: seq<int>, b: seq<int>, acc: seq<int>, i: nat, j: nat, carry: int, cell: int)
    requires |a| == |b| && |acc| == 2 * |a| && i < |a| && j < |b|
    requires RowValue(a, b, acc, i, j + 1, carry)
    requires cell == a[i] * b[j] + acc[i + j + 1] + carry
    ensures RowValue(a, b, acc[i + j + 1 := cell % 10], i, j, cell / 10)
  {
    var n := |a|;
    var k := i + j + 1;
    var acc' := acc[k := cell % 10];
    var p, q := Pow10(2 * n - 1 - k), Pow10(n - 1 - i);
    ValueUpdate(acc, k, cell % 10);
    SuffixFront(b, j);
    assert 2 * n - 1 - k == (n - 1 - j) + (n - 1 - i);
    Pow10Add(n - 1 - j, n - 1 - i);
    assert 2 * n - 1 - i - j == (2 * n - 1 - k) + 1;
    var big := Pow10(2 * n - 1 - i - j);
    assert big == 10 * p;
    MultiplyColumnArith(ValueOf(acc), acc[k], ValueOf(acc'), cell, carry, a[i], b[j], ValueOf(b[j + 1..]),
      ValueOf(b[j..]), ValueOf(a[i + 1..]) * ValueOf(b), p, q, Pow10(n - 1 - j), big);
  }

  lemma {:induction false} MultiplyColumnArith(v: int, c: int, v': int, cell: int, carry: int, x: int, y: int,
    tail: int, whole: int, rows: int, p: int, q: int, w: int, big: int)
    requires v' == v + (cell % 10 - c) * p
    requires cell == x * y + c + carry
    requires whole == y * w + tail && p == w * q && big == 10 * p
    requires v + carry * p == rows + x * tail * q
    ensures v' + (cell / 10) * big == rows + x * whole * q
  {
    assert (cell / 10) * big == (cell / 10) * (10 * p);
    SplitDigit(cell, p);
    assert cell * p == x * y * p + c * p + carry * p;
    assert x * whole * q == x * y * (w * q) + x * tail * q;
  }

  /** The row's last carry goes into cell i, which is still 0, and rows i to |a|-1 are
      then done. */
  lemma {:induction false} RowDone(a: seq<int>, b: seq<int>, acc: seq<int>, acc': seq<int>, i: nat, carry: int)
    requires RowFrom(a, b, acc, i, 0, carry) && 0 <= carry <= 9
    requires |acc'| == |acc| && acc'[i] == acc[i] + carry
    requires forall k :: 0 <= k < |acc| && k != i ==> acc'[k] == acc[k]
    ensures MultipliedFrom(a, b, acc', i)
  {
    assert acc' == acc[i := acc[i] + carry];
    assert acc[..i + 1][i] == acc[i] == 0;
    assert acc'[..i] == acc[..i];
    ValueUpdate(acc, i, acc[i] + carry);
    assert b[0..] == b;
    SuffixFront(a, i);
    RowDoneArith(ValueOf(acc'), ValueOf(acc), carry, Pow10(2 * |a| - 1 - i), a[i], Pow10(|a| - 1 - i),
      ValueOf(a[i + 1..]), ValueOf(b));
  }

  lemma {:induction false} RowDoneArith(v': int, v: int, carry: int, p: int, x: int, q: int, rest: int, y: int)
    requires v' == v + carry * p
    requires v + carry * p == rest * y + x * y * q
    ensures v' == (x * q + rest) * y
  {
    assert (x * q + rest) * y == x * y * q + rest * y;
  }

  /** All rows done: the accumulator stands for the product, one of its top |a| cells is
      nonzero exactly when the product does not fit in |a| digits, and otherwise its
      bottom |a| cells stand for the product. */
  lemma {:induction false} MultiplyDone(a: seq<int>, b: seq<int>, acc: seq<int>)
    requires MultipliedFrom(a, b, acc, 0) && |a| == Width
    ensures (exists k :: 0 <= k < Width && acc[k] != 0) <==> ValueOf(a) * ValueOf(b) >= Capacity
    ensures ValueOf(a) * ValueOf(b) < Capacity ==> ValueOf(acc[Width..]) == ValueOf(a) * ValueOf(b)
  {
    var n := |a|;
    assert a[0..] == a;
    var hi, lo := acc[..n], acc[n..];
    assert acc == hi + lo;
    ValueAppend(hi, lo);
    assert IsDigits(hi) && IsDigits(lo);
    ValueZero(hi);
    ValueBounds(lo);
    ValueBounds(hi);
    CapacityIsPow10();
    if exists k :: 0 <= k < n && acc[k] != 0 {
      var k :| 0 <= k < n && acc[k] != 0;
      assert hi[k] != 0;
      assert ValueOf(hi) >= 1;
    } else {
      assert hi == Zeros(n);
    }
  }

  /** Quotient and remainder of a natural number by a positive one are at most the
      number. */
  lemma {:induction false} DivModBelow(x: int, b: int)
    requires x >= 0 && b > 0
    ensures 0 <= x / b <= x && 0 <= x % b <= x
  {
    FactorsBelow(x, b, x / b, x % b);
  }

  lemma {:induction false} FactorsBelow(x: int, b: int, q: int, r: int)
    requires x >= 0 && b > 0 && 0 <= r < b && x == q * b + r
    ensures 0 <= q <= x && r <= x
  {
    assert q * b == q + q * (b - 1) && q * (b - 1) >= 0;
  }

  /** The remainder of the first p digits of a by b, held as |a| digits. */
  ghost predicate RemainderSoFar(a: seq<int>, p: nat, b: int, r: seq<int>)
  {
    p <= |a| && b > 0 && |r| == |a| && IsDigits(a) && IsDigits(r) && ValueOf(r) == ValueOf(a[..p]) % b
  }

  /** The quotient of the first p digits of a by b, held as |a| digits. */
  ghost predicate QuotientSoFar(a: seq<int>, p: nat, b: int, q: seq<int>)
  {
    p <= |a| && b > 0 && |q| == |a| && IsDigits(a) && IsDigits(q) && ValueOf(q) == ValueOf(a[..p]) / b
  }

  /** Before any digit is taken, quotient and remainder are the all-zero digits. */
  lemma {:induction false} DivisionStart(a: seq<int>, b: int, z: seq<int>)
    requires IsDigits(a) && b > 0 && z == Zeros(|a|)
    ensures QuotientSoFar(a, 0, b, z) && RemainderSoFar(a, 0, b, z)
  {
    assert a[..0] == [];
    ValueZero(z);
  }

  /** The remainder so far is at most the value of the first p digits, below 10^p, so
      its leading digit, which shifting drops, is 0. */
  lemma {:induction false} RemainderShift(a: seq<int>, p: nat, b: int, r: seq<int>)
    requires p < |a| && RemainderSoFar(a, p, b, r)
    ensures ValueOf(r) < b && ValueOf(r) < Pow10(|r| - 1)
    ensures r[0] == 0
  {
    var x := ValueOf(a[..p]);
    assert IsDigits(a[..p]);
    ValueBounds(a[..p]);
    DivModBelow(x, b);
    Pow10Monotone(p, |r| - 1);
    LeadingZero(r);
  }

  /** After the subtractions, what is left of the shifted remainder is the remainder of
      the first p+1 digits, and the count of subtractions is a digit, the next quotient
      digit. */
  lemma {:induction false} RemainderStep(a: seq<int>, p: nat, b: int, before: seq<int>, r: seq<int>, count: int)
    requires p < |a| && RemainderSoFar(a, p, b, before)
    requires |r| == |a| && IsDigits(r) && count >= 0 && 0 <= ValueOf(r) < b
    requires ValueOf(r) + count * b == ValueOf(before) * 10 + a[p]
    ensures RemainderSoFar(a, p + 1, b, r)
    ensures 0 <= count <= 9 && ValueOf(a[..p + 1]) / b == (ValueOf(a[..p]) / b) * 10 + count
  {
    assert IsDigits(a[..p]);
    ValueBounds(a[..p]);
    assert a[..p + 1] == a[..p] + [a[p]];
    ValueSnoc(a[..p], a[p]);
    LongDivisionStep(ValueOf(a[..p]), a[p], b, count, ValueOf(r));
  }

  /** Shifting the next quotient digit into the quotient so far gives the quotient of the
      first p+1 digits. */
  lemma {:induction false} QuotientStep(a: seq<int>, p: nat, b: int, q: seq<int>, count: int)
    requires p < |a| && QuotientSoFar(a, p, b, q)
    requires 0 <= count <= 9 && ValueOf(a[..p + 1]) / b == (ValueOf(a[..p]) / b) * 10 + count
    ensures q[0] == 0
    ensures QuotientSoFar(a, p + 1, b, q[1..] + [count])
  {
    var x := ValueOf(a[..p]);
    assert IsDigits(a[..p]);
    ValueBounds(a[..p]);
    DivModBelow(x, b);
    Pow10Monotone(p, |q| - 1);
    LeadingZero(q);
    ShiftInValue(q, count);
  }

  /** One step of long division: if the remainder of x by b, shifted by the digit d, is
      count·b + rem with rem < b, then count is a digit and x·10 + d has quotient
      (x / b)·10 + count and remainder rem. */
  lemma {:induction false} LongDivisionStep(x: int, d: int, b: int, count: int, rem: int)
    requires x >= 0 && b > 0 && 0 <= d <= 9
    requires count >= 0 && 0 <= rem < b && 10 * (x % b) + d == count * b + rem
    ensures count <= 9
    ensures (x * 10 + d) / b == (x / b) * 10 + count && (x * 10 + d) % b == rem
  {
    var q, r := x / b, x % b;
    assert x == q * b + r;
    assert 10 * r + d < 10 * b;
    CountBelowTen(count, b);
    assert x * 10 + d == (q * 10) * b + (10 * r + d) by {
      assert x * 10 == (q * b) * 10 + r * 10;
      assert (q * b) * 10 == (q * 10) * b;
    }
    assert (q * 10) * b + count * b == (q * 10 + count) * b;
    DivModUnique(x * 10 + d, b, q * 10 + count, rem);
  }

  lemma CountBelowTen(count: int, b: int)
    requires b > 0 && count * b < 10 * b
    ensures count <= 9
  {
    assert (count - 10) * b == count * b - 10 * b;
  }
}
