/** Fixed-width decimal digit sequences, most significant digit first: their numeric
    value, Python's ordering of lists applied to them, and their text forms (zero-filled
    input text, and output text with leading zeros stripped). */
module DecimalDigits {

  /** Number of decimal digits held by a HugeInteger. */
  const Width: nat := 40

  function Pow10(n: nat): (p: int)
    ensures p >= 1
  {
    if n == 0 then 1 else 10 * Pow10(n - 1)
  }

  /** 10^Width: the numbers Width digits can hold are exactly those below it. */
  const Capacity: int := 10000000000000000000000000000000000000000

  lemma CapacityIsPow10()
    ensures Pow10(Width) == Capacity
  {
    assert Pow10(10) == 10000000000;
    Pow10Add(10, 10);
    Pow10Add(20, 20);
  }

  lemma {:induction false} Pow10Add(m: nat, n: nat)
    ensures Pow10(m + n) == Pow10(m) * Pow10(n)
  {
    if n > 0 {
      Pow10Add(m, n - 1);
      calc {
        Pow10(m + n);
        10 * Pow10(m + n - 1);
        10 * (Pow10(m) * Pow10(n - 1));
        Pow10(m) * (10 * Pow10(n - 1));
      }
    }
  }

  predicate IsDigit(d: int) { 0 <= d <= 9 }

  predicate IsDigits(s: seq<int>) { forall k :: 0 <= k < |s| ==> IsDigit(s[k]) }

  function Zeros(n: nat): seq<int> { seq(n, _ => 0) }

  /** The number Σ s[k]·10^(|s|-1-k) that the digits stand for, by Horner's rule. */
  function ValueOf(s: seq<int>): int
  {
    if s == [] then 0 else ValueOf(s[..|s| - 1]) * 10 + s[|s| - 1]
  }

  /** Writing b after a shifts a by |b| places. */
  lemma {:induction false} ValueAppend(a: seq<int>, b: seq<int>)
    ensures ValueOf(a + b) == ValueOf(a) * Pow10(|b|) + ValueOf(b)
  {
    if b == [] {
      assert a + b == a;
    } else {
      var b' := b[..|b| - 1];
      ValueAppend(a, b');
      assert (a + b)[..|a + b| - 1] == a + b';
      calc {
        ValueOf(a + b);
        ValueOf(a + b') * 10 + b[|b| - 1];
        (ValueOf(a) * Pow10(|b'|) + ValueOf(b')) * 10 + b[|b| - 1];
        ValueOf(a) * (Pow10(|b'|) * 10) + (ValueOf(b') * 10 + b[|b| - 1]);
      }
    }
  }

  /** Appending a digit multiplies the value by ten and adds the digit. */
  lemma {:induction false} ValueSnoc(s: seq<int>, d: int)
    ensures ValueOf(s + [d]) == ValueOf(s) * 10 + d
  {
    assert (s + [d])[..|s|] == s;
  }

  /** The most significant digit carries weight 10^(|s|-1). */
  lemma {:induction false} ValueFront(s: seq<int>)
    requires |s| > 0
    ensures ValueOf(s) == s[0] * Pow10(|s| - 1) + ValueOf(s[1..])
  {
    assert s == [s[0]] + s[1..];
    ValueAppend([s[0]], s[1..]);
    assert [s[0]][..0] == [];
  }

  /** A digit sequence of length n stands for a number in [0, 10^n). */
  lemma {:induction false} ValueBounds(s: seq<int>)
    requires IsDigits(s)
    ensures 0 <= ValueOf(s) < Pow10(|s|)
  {
    if s != [] {
      var s' := s[..|s| - 1];
      assert IsDigits(s');
      ValueBounds(s');
      assert ValueOf(s) <= (Pow10(|s'|) - 1) * 10 + 9;
    }
  }

  /** A digit sequence stands for zero exactly when every digit is zero. */
  lemma {:induction false} ValueZero(s: seq<int>)
    requires IsDigits(s)
    ensures ValueOf(s) == 0 <==> s == Zeros(|s|)
  {
    if s != [] {
      var s' := s[..|s| - 1];
      assert IsDigits(s');
      ValueZero(s');
      ValueBounds(s');
      assert s == s' + [s[|s| - 1]];
      assert Zeros(|s|) == Zeros(|s'|) + [0];
    }
  }

  /** Changing the digit at position k changes the value by the difference times the
      weight 10^(|s|-1-k) of that position. */
  lemma {:induction false} ValueUpdate(s: seq<int>, k: nat, v: int)
    requires k < |s|
    ensures ValueOf(s[k := v]) == ValueOf(s) + (v - s[k]) * Pow10(|s| - 1 - k)
  {
    var t := s[k := v];
    ValueSplit(s, k);
    ValueSplit(t, k);
    assert t[..k] == s[..k] && t[k + 1..] == s[k + 1..];
    UpdateArith(ValueOf(s), ValueOf(t), ValueOf(s[..k]) * Pow10(|s| - k), s[k], v,
                Pow10(|s| - 1 - k), ValueOf(s[k + 1..]));
  }

  lemma UpdateArith(before: int, after: int, head: int, x: int, v: int, p: int, tail: int)
    requires before == head + x * p + tail && after == head + v * p + tail
    ensures after == before + (v - x) * p
  {
    assert (v - x) * p == v * p - x * p;
  }

  /** The digits of s from i on: digit i at its weight, then the digits after it. */
  lemma {:induction false} SuffixFront(s: seq<int>, i: nat)
    requires i < |s|
    ensures ValueOf(s[i..]) == s[i] * Pow10(|s| - 1 - i) + ValueOf(s[i + 1..])
  {
    ValueFront(s[i..]);
    assert s[i..][1..] == s[i + 1..];
  }

  /** The value of s split around position k: the digits before k, the digit at k and the
      digits after it. */
  lemma {:induction false} ValueSplit(s: seq<int>, k: nat)
    requires k < |s|
    ensures ValueOf(s) == ValueOf(s[..k]) * Pow10(|s| - k) + s[k] * Pow10(|s| - 1 - k) + ValueOf(s[k + 1..])
  {
    assert s == s[..k] + s[k..];
    ValueAppend(s[..k], s[k..]);
    ValueFront(s[k..]);
    assert s[k..][1..] == s[k + 1..];
  }

  /** Python's comparison of two lists of integers: the first position where they differ
      decides, and when one list is a prefix of the other the shorter one is smaller.
      The result is negative, zero or positive. */
  function ListCompare(a: seq<int>, b: seq<int>): (c: int)
    ensures -1 <= c <= 1
    ensures c == 0 <==> a == b
    decreases |a|
  {
    if a == [] && b == [] then 0
    else if a == [] then -1
    else if b == [] then 1
    else if a[0] < b[0] then -1
    else if a[0] > b[0] then 1
    else
      assert a == [a[0]] + a[1..] && b == [b[0]] + b[1..];
      ListCompare(a[1..], b[1..])
  }

  /** A number whose leading digit is smaller is smaller, whatever the digits after it. */
  lemma {:induction false} LeadingDigitDecides(x: int, y: int, p: int, rx: int, ry: int)
    requires x < y && p >= 1
    requires 0 <= rx < p && 0 <= ry < p
    ensures x * p + rx < y * p + ry
  {
    var d := y - x - 1;
    assert d >= 0;
    assert d * p >= 0;
    assert y * p == x * p + p + d * p;
  }

  /** On digit sequences of one length, list order is numeric order. */
  lemma {:induction false} CompareIsNumeric(a: seq<int>, b: seq<int>)
    requires |a| == |b| && IsDigits(a) && IsDigits(b)
    ensures ListCompare(a, b) < 0 <==> ValueOf(a) < ValueOf(b)
    ensures ListCompare(a, b) == 0 <==> ValueOf(a) == ValueOf(b)
    ensures ListCompare(a, b) > 0 <==> ValueOf(a) > ValueOf(b)
  {
    if a != [] {
      var p := Pow10(|a| - 1);
      ValueFront(a);
      ValueFront(b);
      assert IsDigits(a[1..]) && IsDigits(b[1..]);
      ValueBounds(a[1..]);
      ValueBounds(b[1..]);
      if a[0] < b[0] {
        LeadingDigitDecides(a[0], b[0], p, ValueOf(a[1..]), ValueOf(b[1..]));
      } else if a[0] > b[0] {
        LeadingDigitDecides(b[0], a[0], p, ValueOf(b[1..]), ValueOf(a[1..]));
      } else {
        CompareIsNumeric(a[1..], b[1..]);
      }
    }
  }

  /** Two digit sequences of one length that stand for the same number are equal. */
  lemma {:induction false} SameValueSameDigits(a: seq<int>, b: seq<int>)
    requires |a| == |b| && IsDigits(a) && IsDigits(b)
    requires ValueOf(a) == ValueOf(b)
    ensures a == b
  {
    CompareIsNumeric(a, b);
  }

  /** The n-digit sequence of nines stands for 10^n - 1, the largest n-digit number. */
  lemma {:induction false} ValueOfNines(n: nat)
    ensures ValueOf(seq(n, _ => 9)) == Pow10(n) - 1
  {
    if n > 0 {
      assert seq(n, _ => 9)[..n - 1] == seq(n - 1, _ => 9);
      ValueOfNines(n - 1);
    }
  }

  /** A digit sequence whose value is below 10^(|s|-1) has leading digit 0. */
  lemma {:induction false} LeadingZero(s: seq<int>)
    requires |s| > 0 && IsDigits(s) && ValueOf(s) < Pow10(|s| - 1)
    ensures s[0] == 0
  {
    ValueFront(s);
    assert IsDigits(s[1..]);
    ValueBounds(s[1..]);
    if s[0] != 0 {
      LeadingDigitDecides(0, s[0], Pow10(|s| - 1), ValueOf(s), ValueOf(s[1..]));
      assert false;
    }
  }

  /** Shifting a digit sequence one place to the front and appending d multiplies its
      value by ten and adds d, provided the dropped leading digit is zero. */
  lemma {:induction false} ShiftInValue(s: seq<int>, d: int)
    requires |s| > 0 && s[0] == 0
    ensures ValueOf(s[1..] + [d]) == ValueOf(s) * 10 + d
  {
    var rest := s[1..];
    ValueFront(s);
    var t := rest + [d];
    assert t != [] && t[..|t| - 1] == rest && t[|t| - 1] == d;
  }

  lemma {:induction false} Pow10Monotone(m: nat, n: nat)
    requires m <= n
    ensures Pow10(m) <= Pow10(n)
  {
    Pow10Add(m, n - m);
    assert Pow10(m) * Pow10(n - m) >= Pow10(m) * 1;
  }

  /** t·p split into its last decimal digit and the carry: t%10·p + t/10·(10·p) == t·p. */
  lemma SplitDigit(t: int, p: int)
    ensures (t % 10) * p + (t / 10) * (10 * p) == t * p
  {
    var q, r := t / 10, t % 10;
    assert t == 10 * q + r;
    calc {
      r * p + q * (10 * p);
      r * p + (10 * q) * p;
      (10 * q + r) * p;
    }
  }

  lemma ProductOfDigits(x: int, y: int)
    requires IsDigit(x) && IsDigit(y)
    ensures 0 <= x * y <= 81
  {
    assert x * y <= 9 * y;
  }

  /** Quotient and remainder are unique: x == q·b + r with 0 <= r < b forces q == x / b and
      r == x % b. */
  lemma {:induction false} DivModUnique(x: int, b: int, q: int, r: int)
    requires b > 0 && 0 <= r < b && x == q * b + r
    ensures q == x / b && r == x % b
  {
    var q', r' := x / b, x % b;
    assert x == q' * b + r' && 0 <= r' < b;
    if q < q' {
      LeadingDigitDecides(q, q', b, r, r');
      assert false;
    } else if q > q' {
      LeadingDigitDecides(q', q, b, r', r);
      assert false;
    }
  }

  // ---------------------------------------------------------------------------
  // Text

  predicate IsDigitChar(c: char) { '0' <= c <= '9' }

  function CharValue(c: char): int { c as int - '0' as int }

  function DigitChar(d: int): char
    requires IsDigit(d)
  {
    ('0' as int + d) as char
  }

  /** The digit values of the characters of t, one per character. */
  function DigitsOfText(t: string): seq<int>
  {
    seq(|t|, k requires 0 <= k < |t| => CharValue(t[k]))
  }

  /** The characters of the digits of s, one per digit. */
  function TextOfDigits(s: seq<int>): string
    requires IsDigits(s)
  {
    seq(|s|, k requires 0 <= k < |s| => DigitChar(s[k]))
  }

  /** The number a text of decimal digits stands for. */
  function TextValue(t: string): int
  {
    ValueOf(DigitsOfText(t))
  }

  /** What HugeInteger accepts as input: at most Width characters, each a decimal digit. */
  predicate IsNumeral(t: string)
  {
    |t| <= Width && forall k :: 0 <= k < |t| ==> IsDigitChar(t[k])
  }

  /** Output text: nonempty, decimal digits only, and no leading zero unless it is "0". */
  predicate IsCanonical(t: string)
  {
    |t| > 0 && (forall k :: 0 <= k < |t| ==> IsDigitChar(t[k])) && (t[0] == '0' ==> t == "0")
  }

  function Repeat(c: char, n: nat): string { seq(n, _ => c) }

  /** Python's str.zfill: pad t on the left with '0' to the given width, keeping a leading
      '+' or '-' sign in front of the padding; a text already that wide is unchanged. */
  function ZFill(t: string, width: nat): string
  {
    if |t| >= width then t
    else if |t| > 0 && (t[0] == '+' || t[0] == '-') then [t[0]] + Repeat('0', width - |t|) + t[1..]
    else Repeat('0', width - |t|) + t
  }

  /** The position of the first character of t that is not a decimal digit, or |t|. */
  function FirstNonDigit(t: string): (j: nat)
    ensures j <= |t|
    ensures forall k :: 0 <= k < j ==> IsDigitChar(t[k])
    ensures j < |t| ==> !IsDigitChar(t[j])
  {
    if t == [] || !IsDigitChar(t[0]) then 0 else 1 + FirstNonDigit(t[1..])
  }

  /** Python's str.lstrip('0'): drop every leading '0'. */
  function LStripZeros(t: string): (r: string)
    ensures |r| <= |t| && r == t[|t| - |r|..]
    ensures forall k :: 0 <= k < |t| - |r| ==> t[k] == '0'
    ensures r == [] || r[0] != '0'
  {
    if t != [] && t[0] == '0' then
      var r := LStripZeros(t[1..]);
      assert t[1..][|t| - 1 - |r|..] == t[|t| - |r|..];
      assert forall k :: 1 <= k < |t| - |r| ==> t[k] == t[1..][k - 1];
      r
    else
      t
  }

  /** The text of a digit list as Python prints it: the digits joined, leading zeros
      stripped, and "0" when nothing is left. */
  function Format(s: seq<int>): string
    requires IsDigits(s)
  {
    var t := LStripZeros(TextOfDigits(s));
    if t == [] then "0" else t
  }

  // ---------------------------------------------------------------------------
  // Lemmas about the text forms

  lemma {:induction false} DigitsOfTextOfDigits(s: seq<int>)
    requires IsDigits(s)
    ensures DigitsOfText(TextOfDigits(s)) == s
  {
  }

  lemma {:induction false} TextOfDigitsOfText(t: string)
    requires forall k :: 0 <= k < |t| ==> IsDigitChar(t[k])
    ensures IsDigits(DigitsOfText(t)) && TextOfDigits(DigitsOfText(t)) == t
  {
  }

  /** Format gives canonical text: digits only, no leading zero unless it is "0". */
  lemma {:induction false} FormatIsCanonical(s: seq<int>)
    requires IsDigits(s)
    ensures IsCanonical(Format(s))
  {
    var c := TextOfDigits(s);
    TextOfDigitsChars(s);
    StrippedDigits(c, LStripZeros(c));
  }

  /** The text of a digit list is made of decimal digit characters. */
  lemma {:induction false} TextOfDigitsChars(s: seq<int>)
    requires IsDigits(s)
    ensures forall k :: 0 <= k < |TextOfDigits(s)| ==> IsDigitChar(TextOfDigits(s)[k])
  {
  }

  /** A suffix of a text of digits is a text of digits. */
  lemma {:induction false} StrippedDigits(c: string, r: string)
    requires forall k :: 0 <= k < |c| ==> IsDigitChar(c[k])
    requires |r| <= |c| && r == c[|c| - |r|..]
    ensures forall k :: 0 <= k < |r| ==> IsDigitChar(r[k])
  {
    forall k | 0 <= k < |r| ensures IsDigitChar(r[k]) {
      assert r[k] == c[|c| - |r| + k];
    }
  }
  /** The printed text stands for the number the digits stand for. */
  lemma {:induction false} FormatValue(s: seq<int>)
    requires IsDigits(s)
    ensures TextValue(Format(s)) == ValueOf(s)
  {
    var c := TextOfDigits(s);
    var r := LStripZeros(c);
    var n := |c| - |r|;
    forall k | 0 <= k < n ensures s[k] == 0 {
      assert c[k] == '0' && c[k] == DigitChar(s[k]);
    }
    ZeroPrefixValue(s, n);
    if r == [] {
      assert DigitsOfText("0") == [0] && [0][..0] == [];
    } else {
      DigitsOfSuffix(s, n);
    }
  }

  /** Leading zeros do not change the value. */
  lemma {:induction false} ZeroPrefixValue(s: seq<int>, n: nat)
    requires n <= |s| && forall k :: 0 <= k < n ==> s[k] == 0
    ensures ValueOf(s) == ValueOf(s[n..])
  {
    assert s[..n] == Zeros(n);
    assert s == s[..n] + s[n..];
    ValueAppend(s[..n], s[n..]);
    ValueZero(s[..n]);
  }

  /** The digits of the text of s, read back from position n on, are s's digits from n on. */
  lemma {:induction false} DigitsOfSuffix(s: seq<int>, n: nat)
    requires IsDigits(s) && n <= |s|
    ensures DigitsOfText(TextOfDigits(s)[n..]) == s[n..]
  {
    assert TextOfDigits(s)[n..] == TextOfDigits(s[n..]);
    DigitsOfTextOfDigits(s[n..]);
  }

  lemma {:induction false} LStripPadding(m: nat, t: string)
    ensures LStripZeros(Repeat('0', m) + t) == LStripZeros(t)
  {
    if m > 0 {
      var z := Repeat('0', m) + t;
      assert z != [] && z[0] == '0';
      assert z[1..] == Repeat('0', m - 1) + t;
      LStripPadding(m - 1, t);
    } else {
      assert Repeat('0', m) + t == t;
    }
  }

  /** A numeral zero-filled to Width is Width digits standing for the numeral's value. */
  lemma {:induction false} PaddedNumeral(t: string)
    requires IsNumeral(t)
    ensures ZFill(t, Width) == Repeat('0', Width - |t|) + t
    ensures |DigitsOfText(ZFill(t, Width))| == Width
    ensures IsDigits(DigitsOfText(ZFill(t, Width)))
    ensures ValueOf(DigitsOfText(ZFill(t, Width))) == TextValue(t)
    ensures FirstNonDigit(ZFill(t, Width)) == Width
  {
    var p, m := ZFill(t, Width), Width - |t|;
    assert p == Repeat('0', m) + t;
    assert forall k :: 0 <= k < |p| ==> IsDigitChar(p[k]);
    var z, d := Zeros(m), DigitsOfText(t);
    assert DigitsOfText(p) == z + d;
    ValueAppend(z, d);
    ValueZero(z);
    assert ValueOf(z) * Pow10(|d|) == 0;
  }

  /** Zero-filling text of at most Width characters gives exactly Width characters, all of
      them digits exactly when the text is a numeral (a sign is not a digit). */
  lemma {:induction false} ZFillDigits(t: string)
    requires |t| <= Width
    ensures |ZFill(t, Width)| == Width
    ensures (forall k :: 0 <= k < Width ==> IsDigitChar(ZFill(t, Width)[k])) <==> IsNumeral(t)
  {
    var p := ZFill(t, Width);
    var m := Width - |t|;
    if |t| == Width {
      assert p == t;
    } else if |t| > 0 && (t[0] == '+' || t[0] == '-') {
      assert p[0] == t[0] && !IsDigitChar(p[0]);
      assert !IsDigitChar(t[0]);
    } else {
      assert p == Repeat('0', m) + t;
      assert forall k :: 0 <= k < |t| ==> p[m + k] == t[k];
    }
  }

  /** Printing what was parsed from a numeral gives the numeral without its leading zeros,
      or "0" when nothing is left. */
  lemma {:induction false} FormatOfParsed(t: string)
    requires IsNumeral(t)
    ensures IsDigits(DigitsOfText(ZFill(t, Width)))
    ensures Format(DigitsOfText(ZFill(t, Width))) == if LStripZeros(t) == [] then "0" else LStripZeros(t)
  {
    PaddedNumeral(t);
    FormatPadded(ZFill(t, Width), Width - |t|, t);
  }

  /** Printing the digits of p, a digit text t padded with m zeros, gives t without its
      leading zeros, or "0". */
  lemma {:induction false} FormatPadded(p: string, m: nat, t: string)
    requires p == Repeat('0', m) + t
    requires forall k :: 0 <= k < |t| ==> IsDigitChar(t[k])
    ensures IsDigits(DigitsOfText(p))
    ensures Format(DigitsOfText(p)) == if LStripZeros(t) == [] then "0" else LStripZeros(t)
  {
    assert forall k :: 0 <= k < |p| ==> IsDigitChar(p[k]);
    TextOfDigitsOfText(p);
    LStripPadding(m, t);
  }

  /** Parsing what was printed gives back the same Width digits. */
  lemma {:induction false} ParsedOfFormat(s: seq<int>)
    requires |s| == Width && IsDigits(s)
    ensures IsNumeral(Format(s))
    ensures DigitsOfText(ZFill(Format(s), Width)) == s
  {
    FormatIsCanonical(s);
    FormatValue(s);
    PaddedNumeral(Format(s));
    SameValueSameDigits(DigitsOfText(ZFill(Format(s), Width)), s);
  }
}
