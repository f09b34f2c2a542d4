/** HugeInteger used as a client would: the identities its operations keep together,
    small worked cases and one call per error. */
module Usage {
  import opened DecimalDigits
  import opened Integer

  /** Dividing, multiplying the quotient back and adding the remainder gives the dividend
      again, and neither the multiplication nor the addition overflows; the remainder is
      below the divisor. */
  method DivisionRecombines(a: HugeInteger, b: HugeInteger) returns (r: Result<HugeInteger>)
    requires a.Valid() && b.Valid()
    ensures r.Err? <==> b.Value() == 0
    ensures r.Err? ==> r.error == DivisionByZero
    ensures r.Ok? ==> r.value.Valid() && r.value.Value() == a.Value()
  {
    var quotient := a.Divide(b);
    var remainder := a.Remainder(b);
    if quotient.Err? || remainder.Err? {
      return Err(DivisionByZero);
    }
    ghost var x, y := a.Value(), b.Value();
    assert quotient.value.Value() == x / y && remainder.value.Value() == x % y;
    DivisionIdentity(x, y);
    var product := quotient.value.Multiply(b);
    assert product.Ok?;
    r := product.value.Add(remainder.value);
    assert r.Ok?;
  }

  lemma {:induction false} DivisionIdentity(x: int, y: int)
    requires x >= 0 && y > 0
    ensures (x / y) * y + x % y == x && 0 <= (x / y) * y <= x
  {
    DivModBelow(x, y);
    assert (x / y) * y + x % y == x;
  }

  /** Printing a HugeInteger and parsing the text gives back the same digits. */
  method PrintThenParse(h: HugeInteger) returns (r: Result<HugeInteger>)
    requires h.Valid()
    ensures r.Ok? && r.value.Valid() && r.value.digits[..] == h.digits[..]
  {
    var text := h.ToString();
    ParsedOfFormat(h.digits[..]);
    r := HugeInteger.Create(text);
  }

  /** Parsing a numeral and printing it gives the numeral without its leading zeros. */
  method ParseThenPrint(text: string) returns (s: string)
    requires IsNumeral(text)
    ensures s == if LStripZeros(text) == [] then "0" else LStripZeros(text)
  {
    var r := HugeInteger.Create(text);
    FormatOfParsed(text);
    s := r.value.ToString();
  }

  /** The largest HugeInteger, Width nines, plus one overflows. */
  method LargestPlusOne() returns (r: Result<HugeInteger>)
    ensures r == Err(Overflow)
  {
    var text := Repeat('9', Width);
    assert DigitsOfText(text) == seq(Width, _ => 9);
    ValueOfNines(Width);
    CapacityIsPow10();
    var largest := HugeInteger.Create(text);
    var one := HugeInteger.Create("1");
    assert DigitsOfText("1") == [1];
    r := largest.value.Add(one.value);
  }

  /** 5 - 10 has no HugeInteger result. */
  method SmallerMinusLarger() returns (r: Result<HugeInteger>)
    ensures r == Err(NegativeResult)
  {
    var five := HugeInteger.Create("5");
    var ten := HugeInteger.Create("10");
    assert DigitsOfText("5") == [5] && DigitsOfText("10") == [1, 0];
    r := five.value.Subtract(ten.value);
  }

  /** Dividing 123 by 0, or taking its remainder by 0, fails. */
  method ByZero() returns (q: Result<HugeInteger>, m: Result<HugeInteger>)
    ensures q == Err(DivisionByZero) && m == Err(DivisionByZero)
  {
    var dividend := HugeInteger.Create("123");
    var zero := HugeInteger.Create("0");
    assert DigitsOfText("0") == [0];
    q := dividend.value.Divide(zero.value);
    m := dividend.value.Remainder(zero.value);
  }

  /** Text with a character that is not a digit, or with more than Width digits, is
      refused. */
  method Malformed() returns (r1: Result<HugeInteger>, r2: Result<HugeInteger>)
    ensures r1 == Err(FormatError) && r2 == Err(FormatError)
  {
    r1 := HugeInteger.Create("12a");
    assert !IsDigitChar("12a"[2]);
    r2 := HugeInteger.Create(Repeat('1', Width + 1));
  }

  /** The values of the short numerals used below. */
  lemma SmallValues()
    ensures TextValue("1") == 1 && TextValue("7") == 7
    ensures TextValue("12") == 12 && TextValue("34") == 34
    ensures TextValue("100") == 100 && TextValue("999") == 999 && TextValue("1000") == 1000
  {
    assert DigitsOfText("1") == [1] && DigitsOfText("7") == [7];
    assert DigitsOfText("12") == [1] + [2] && DigitsOfText("34") == [3] + [4];
    assert DigitsOfText("100") == [1] + [0] + [0] && DigitsOfText("999") == [9] + [9] + [9];
    assert DigitsOfText("1000") == [1] + [0] + [0] + [0];
    ValueSnoc([], 1);
    ValueSnoc([], 7);
    ValueSnoc([], 3);
    ValueSnoc([], 9);
    ValueSnoc([1], 2);
    ValueSnoc([3], 4);
    ValueSnoc([1], 0);
    ValueSnoc([1] + [0], 0);
    ValueSnoc([1] + [0] + [0], 0);
    ValueSnoc([9], 9);
    ValueSnoc([9] + [9], 9);
  }

  /** 999 + 1 carries through every digit: 1000. */
  method CarryThrough() returns (r: Result<HugeInteger>)
    ensures r.Ok? && r.value.Valid() && r.value.Value() == 1000
  {
    SmallValues();
    var nines := HugeInteger.Create("999");
    var one := HugeInteger.Create("1");
    r := nines.value.Add(one.value);
  }

  /** 1000 - 1 borrows through every digit: 999. */
  method BorrowThrough() returns (r: Result<HugeInteger>)
    ensures r.Ok? && r.value.Valid() && r.value.Value() == 999
  {
    SmallValues();
    var thousand := HugeInteger.Create("1000");
    var one := HugeInteger.Create("1");
    r := thousand.value.Subtract(one.value);
  }

  /** 12 · 34 == 408. */
  method SmallProduct() returns (r: Result<HugeInteger>)
    ensures r.Ok? && r.value.Valid() && r.value.Value() == 408
  {
    SmallValues();
    var twelve := HugeInteger.Create("12");
    var thirtyFour := HugeInteger.Create("34");
    assert twelve.value.Value() == 12 && thirtyFour.value.Value() == 34;
    assert 12 * 34 == 408;
    r := twelve.value.Multiply(thirtyFour.value);
  }

  /** 100 divided by 7: quotient 14, remainder 2. */
  method SmallDivision() returns (q: Result<HugeInteger>, m: Result<HugeInteger>)
    ensures q.Ok? && q.value.Valid() && q.value.Value() == 14
    ensures m.Ok? && m.value.Valid() && m.value.Value() == 2
  {
    SmallValues();
    var hundred := HugeInteger.Create("100");
    var seven := HugeInteger.Create("7");
    q := hundred.value.Divide(seven.value);
    m := hundred.value.Remainder(seven.value);
  }
}
