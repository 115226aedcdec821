/** Decimal numerals, as the standard library formats and parses unsigned integers. */
module Text {
  import opened Json

  predicate IsDigit(c: char) {
    '0' <= c <= '9'
  }

  function DigitValue(c: char): nat
    requires IsDigit(c)
  {
    c as int - '0' as int
  }

  function DigitChar(d: nat): (c: char)
    requires d < 10
    ensures IsDigit(c) && DigitValue(c) == d
  {
    ('0' as int + d) as char
  }

  /** Decimal text of `n`, without leading zeros. */
  function Decimal(n: nat): (s: string)
    ensures |s| >= 1
    ensures forall c :: c in s ==> IsDigit(c)
  {
    if n < 10 then [DigitChar(n)] else Decimal(n / 10) + [DigitChar(n % 10)]
  }

  function DigitsValue(s: string): nat
    requires forall c :: c in s ==> IsDigit(c)
  {
    if s == [] then 0 else 10 * DigitsValue(s[..|s| - 1]) + DigitValue(s[|s| - 1])
  }

  /** An optional `+` and at least one digit, as unsigned `from_str` accepts it;
      the caller compares with the maximum of its integer type. */
  function ParseUnsigned(s: string): Option<nat> {
    var digits := if s != [] && s[0] == '+' then s[1..] else s;
    if digits != [] && forall c :: c in digits ==> IsDigit(c) then Some(DigitsValue(digits)) else None
  }

  lemma {:induction false} DigitsValueDecimal(n: nat)
    ensures DigitsValue(Decimal(n)) == n
  {
    if n >= 10 {
      DigitsValueDecimal(n / 10);
      var s := Decimal(n);
      assert s[..|s| - 1] == Decimal(n / 10);
    }
  }

  /** Parsing inverts formatting. */
  lemma ParseDecimal(n: nat)
    ensures ParseUnsigned(Decimal(n)) == Some(n)
  {
    DigitsValueDecimal(n);
    assert Decimal(n)[0] in Decimal(n);
  }

  lemma Samples()
    ensures Decimal(0) == "0" && Decimal(7) == "7" && Decimal(105) == "105"
  {
    assert Decimal(10) == "10";
  }

  // ---------------------------------------------------------------- every spelling

  function Zeros(k: nat): string {
    if k == 0 then "" else "0" + Zeros(k - 1)
  }

  /** A number as it may be spelled: perhaps a plus sign, perhaps leading zeros. */
  function Spelling(plus: bool, k: nat, n: nat): string {
    (if plus then "+" else "") + (Zeros(k) + Decimal(n))
  }

  predicate AllDigits(s: string) { forall c :: c in s ==> IsDigit(c) }

  lemma {:induction false} LeadingZero(s: string)
    requires AllDigits(s)
    ensures AllDigits("0" + s) && DigitsValue("0" + s) == DigitsValue(s)
  {
    var t := "0" + s;
    if s == [] {
      assert t[..0] == [];
    } else {
      var n := |s| - 1;
      assert forall c :: c in s[..n] ==> c in s;
      LeadingZero(s[..n]);
      assert t[..n + 1] == "0" + s[..n];
    }
  }

  lemma {:induction false} ZerosValue(k: nat, s: string)
    requires AllDigits(s)
    ensures AllDigits(Zeros(k) + s) && DigitsValue(Zeros(k) + s) == DigitsValue(s)
  {
    if k == 0 {
      assert Zeros(k) + s == s;
    } else {
      ZerosValue(k - 1, s);
      LeadingZero(Zeros(k - 1) + s);
      assert Zeros(k) + s == "0" + (Zeros(k - 1) + s);
    }
  }

  /** Digits that do not start with a zero, or are a single one, are the decimal text of their value. */
  lemma {:induction false} PlainDigits(s: string)
    requires AllDigits(s) && s != "" && (s[0] == '0' ==> |s| == 1)
    ensures Decimal(DigitsValue(s)) == s && (s[0] != '0' ==> DigitsValue(s) > 0)
  {
    var n := |s| - 1;
    assert s[n] in s && s[0] in s;
    if n == 0 {
      assert s[..0] == [];
    } else {
      assert forall c :: c in s[..n] ==> c in s;
      PlainDigits(s[..n]);
      assert DigitsValue(s) / 10 == DigitsValue(s[..n]) && DigitsValue(s) % 10 == DigitValue(s[n]);
      assert s == s[..n] + [s[n]];
    }
  }

  lemma {:induction false} DigitsSpelling(s: string) returns (k: nat)
    requires AllDigits(s) && s != ""
    ensures s == Zeros(k) + Decimal(DigitsValue(s))
  {
    hide Decimal, DigitsValue;
    if s[0] == '0' && |s| > 1 {
      assert forall c :: c in s[1..] ==> c in s;
      var j := DigitsSpelling(s[1..]);
      k := j + 1;
      LeadingZero(s[1..]);
      assert s == "0" + s[1..];
      assert Zeros(k) + Decimal(DigitsValue(s)) == "0" + (Zeros(j) + Decimal(DigitsValue(s)));
    } else {
      k := 0;
      PlainDigits(s);
      assert Zeros(0) + Decimal(DigitsValue(s)) == s;
    }
  }

  /** A text parses to `n` exactly when it is a spelling of `n`. */
  lemma {:induction false} ParsesSpellings(s: string, n: nat)
    ensures ParseUnsigned(s) == Some(n) <==> exists plus, k: nat :: s == Spelling(plus, k, n)
  {
    if ParseUnsigned(s) == Some(n) {
      var plus := s[0] == '+';
      var digits := if plus then s[1..] else s;
      var k := DigitsSpelling(digits);
      assert plus ==> s == "+" + s[1..];
      assert s == Spelling(plus, k, n);
    }
    if plus, k: nat :| s == Spelling(plus, k, n) {
      SpellingParses(plus, k, n);
    }
  }

  lemma {:induction false} SpellingParses(plus: bool, k: nat, n: nat)
    ensures ParseUnsigned(Spelling(plus, k, n)) == Some(n)
  {
    var digits := Zeros(k) + Decimal(n);
    DigitsValueDecimal(n);
    ZerosValue(k, Decimal(n));
    assert digits[0] in digits;
    if plus {
      assert ("+" + digits)[1..] == digits;
    } else {
      assert "" + digits == digits;
    }
  }
}
