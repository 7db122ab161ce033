/** Printing a number and parsing the text gives the number back. */
module NumberRoundTrip {
  import opened Basics
  import opened Printf
  import opened ParseText
  import S = StringToLong

  /** The first `base` characters of a table are the digits of that base. */
  ghost predicate GoodTable(digits: string, base: nat) {
    2 <= base <= |digits| &&
    forall d :: 0 <= d < base ==> S.DigitOf(digits[d]) == d && S.ValidDigit(digits[d], base) && Storable(digits[d])
  }

  /** The lower-case table has the digits of every base up to 36. */
  lemma {:induction false} LowerTableIsGood(base: nat)
    requires 2 <= base <= 36
    ensures GoodTable(DIGITS_LOWER, base)
  {
    forall d | 0 <= d < base
      ensures S.DigitOf(DIGITS_LOWER[d]) == d && S.ValidDigit(DIGITS_LOWER[d], base) && Storable(DIGITS_LOWER[d])
    {
      LowerDigit(d);
    }
  }

  lemma {:induction false} LowerDigit(d: nat)
    requires d < 36
    ensures S.DigitOf(DIGITS_LOWER[d]) == d && S.ValidDigit(DIGITS_LOWER[d], 36) && Storable(DIGITS_LOWER[d])
  {
    if d < 10 {
      assert DIGITS_LOWER[d] == '0' + d as char;
    } else {
      assert DIGITS_LOWER[d] == 'a' + (d - 10) as char;
    }
  }

  /** The upper-case table is not a table for every base: O and M are swapped. */
  lemma {:induction false} UpperTableGoodIff(base: nat)
    requires 2 <= base <= |DIGITS_UPPER|
    ensures GoodTable(DIGITS_UPPER, base) <==> base <= 22
  {
    assert DIGITS_UPPER[22] == 'O' && S.DigitOf('O') == 24;
  }

  ghost predicate AllDigits(text: string, base: nat) {
    forall k :: 0 <= k < |text| ==> S.ValidDigit(text[k], base) && Storable(text[k])
  }

  lemma {:induction false} SignificantValue(v: nat, base: nat, digits: string)
    requires GoodTable(digits, base)
    ensures S.Horner(Significant(v, base, digits), base) == v
    ensures AllDigits(Significant(v, base, digits), base)
    ensures v > 0 ==> |Significant(v, base, digits)| > 0 && S.DigitOf(Significant(v, base, digits)[0]) > 0
  {
    if v == 0 {
    } else {
      var (q, m) := DivMod(v, base);
      var front := Significant(q, base, digits);
      assert Significant(v, base, digits) == front + [digits[m]];
      assert S.DigitOf(digits[m]) == m && S.ValidDigit(digits[m], base) && Storable(digits[m]);
      SignificantValue(q, base, digits);
      hide S.Horner, DivMod, Significant, S.DigitOf, S.ValidDigit, Storable;
      S.HornerAppend(front, digits[m], base);
    }
  }

  lemma {:induction false} NumeralValue(v: nat, base: nat, digits: string)
    requires GoodTable(digits, base)
    ensures var text := Numeral(v, base, digits);
            && |text| > 0 && S.Horner(text, base) == v && AllDigits(text, base)
            && (v > 0 ==> S.DigitOf(text[0]) > 0)
  {
    SignificantValue(v, base, digits);
    if v == 0 {
      var text := Numeral(v, base, digits);
      assert text[..|text| - 1] == [];
    }
  }

  function Signed(negative: bool, text: string): string { (if negative then "-" else "") + text }

  lemma {:induction false} LeadingZero(text: string, base: nat)
    requires |text| > 0 && text[0] == '0'
    ensures S.Horner(text, base) == S.Horner(text[1..], base)
  {
    S.PowerSumIsHorner(text, base);
    S.PowerSumIsHorner(text[1..], base);
    hide S.Horner;
    assert S.DigitOf('0') * S.Pow(base, |text| - 1) == 0;
  }

  /** Given a string of digits of a base, with or without a minus in front, `strtol`
      returns its value and consumes all of it, except for a lone zero in base 8 and
      for the bases it refuses. */
  lemma {:induction false} ParseNumeral(text: string, negative: bool, base: nat)
    requires 1 <= base && |text| > 0 && AllDigits(text, base)
    ensures var s := Signed(negative, text);
            S.Strtol(Some(s), base) ==
            if base >= 35 then (0, None)
            else if base == 8 && text == "0" then (0, Some(0))
            else (Times(negative, S.Horner(text, base)), Some(|s|))
  {
    var sign := if negative then "-" else "";
    assert text + [] == text;
    if base == 8 && text[0] == '0' {
      LeadingZero(text, 8);
      assert text == "0" + text[1..] + [] && (text == "0" <==> text[1..] == []);
      hide S.Strtol, S.Horner;
      ParseOctal(sign, text[1..], [], 8);
    } else if base < 35 {
      hide S.Strtol, S.Horner;
      ParseDigits(sign, text, [], base);
    }
  }

  /** Printing in a base and parsing in the same base is a round trip, for every base
      with a correct digit table, exactly when the parser accepts the base and the
      number is not zero in base 8. */
  lemma {:induction false} BaseRoundTripIff(v: nat, base: nat, digits: string)
    requires GoodTable(digits, base)
    ensures S.Strtol(Some(Numeral(v, base, digits)), base) == (v, Some(|Numeral(v, base, digits)|)) <==>
            base < 35 && (base != 8 || v != 0)
  {
    var text := Numeral(v, base, digits);
    NumeralValue(v, base, digits);
    ParseNumeral(text, false, base);
    assert Signed(false, text) == text;
    ZeroNumeral(v, base, digits);
    hide S.Strtol, S.Horner, Numeral;
  }

  /** A numeral is "0" exactly when the number is zero. */
  lemma {:induction false} ZeroNumeral(v: nat, base: nat, digits: string)
    requires GoodTable(digits, base)
    ensures Numeral(v, base, digits) == "0" <==> v == 0 && digits[0] == '0'
    ensures base <= 10 ==> digits[0] == '0'
  {
    NumeralValue(v, base, digits);
    assert S.DigitOf(digits[0]) == 0 && S.ValidDigit(digits[0], base);
    hide S.Horner, Significant;
  }

  /** The digits reach base 36, but the parser refuses base 35; and it refuses the
      numeral of zero in base 8. */
  lemma {:induction false} RefusedNumerals()
    ensures GoodTable(DIGITS_LOWER, 35) && Numeral(1, 35, DIGITS_LOWER) == "1"
    ensures S.Strtol(Some("1"), 35) == (0, None)
    ensures GoodTable(DIGITS_LOWER, 8) && Numeral(0, 8, DIGITS_LOWER) == "0"
    ensures S.Strtol(Some("0"), 8) == (0, Some(0))
  {
    LowerTableIsGood(35);
    LowerTableIsGood(8);
    ParseNumeral("0", false, 8);
    assert Signed(false, "0") == "0";
    assert Significant(1, 35, DIGITS_LOWER) == "1" by {
      assert DivMod(1, 35) == (0, 1) && Significant(0, 35, DIGITS_LOWER) == [];
    }
    hide S.Parse;
  }

  /** The round trip through the scratch buffer and the converter object. */
  method FormatThenConvert(v: nat, base: nat, digits: string) returns (m: int, endptr: Option<nat>)
    requires GoodTable(digits, base) && v <= UINT_MAX && (base >= 3 || v < 0x8000_0000)
    ensures m == v && endptr == Some(|Numeral(v, base, digits)|) <==> base < 35 && (base != 8 || v != 0)
  {
    hide Numeral, S.Strtol;
    var text := FormatUnsigned(v, base, digits);
    BaseRoundTripIff(v, base, digits);
    var c := new S.StringToLongConverter(Some(text), base);
    m, endptr := c.Convert();
  }

  /** `strtol` in base 10 undoes "%d", for every int except the most negative one. */
  lemma {:induction false} DecimalRoundTrip(n: int)
    requires -INT_MAX <= n <= INT_MAX
    ensures S.Strtol(Some(IntText(n)), 10) == (n, Some(|IntText(n)|))
  {
    LowerTableIsGood(10);
    var v := if n < 0 then -n else n;
    NumeralValue(v, 10, DIGITS_LOWER);
    ParseNumeral(Numeral(v, 10, DIGITS_LOWER), n < 0, 10);
    assert Signed(false, Numeral(v, 10, DIGITS_LOWER)) == Numeral(v, 10, DIGITS_LOWER);
    hide S.Strtol, S.Horner, Numeral;
  }

  /** `strtol` in base 16 undoes "%x" and "%X". */
  lemma {:induction false} HexRoundTrip(u: nat, digits: string)
    requires digits == DIGITS_LOWER || digits == DIGITS_UPPER
    ensures S.Strtol(Some(Numeral(u, 16, digits)), 16) == (u, Some(|Numeral(u, 16, digits)|))
  {
    if digits == DIGITS_LOWER { LowerTableIsGood(16); } else { UpperTableGoodIff(16); }
    hide S.Strtol, Numeral;
    BaseRoundTripIff(u, 16, digits);
  }

  /** Nothing the parser forms on the way exceeds the number it returns, so a value
      that fits in a `long` is parsed without overflow. */
  lemma {:induction false} RoundTripStaysInRange(v: nat, base: nat, digits: string, k: nat)
    requires GoodTable(digits, base) && v > 0 && k < |Numeral(v, base, digits)|
    ensures S.Pow(base, |Numeral(v, base, digits)| - 1 - k) <= v
    ensures S.PowerSum(Numeral(v, base, digits)[k..], base) <= v
  {
    var text := Numeral(v, base, digits);
    NumeralValue(v, base, digits);
    S.PowerSumIsHorner(text, base);
    S.IntermediatesAreBounded(text, base, k);
  }

  lemma {:induction false} StoredDigits(text: string)
    requires forall k :: 0 <= k < |text| ==> Storable(text[k])
    ensures Stored(text) == text
  {
    if text == [] {
    } else {
      StoredDigits(text[1..]);
      assert text == [text[0]] + text[1..];
    }
  }

  lemma {:induction false} DecimalFits(n: int)
    requires -INT_MAX <= n <= INT_MAX
    ensures Stored(IntText(n)) == IntText(n) && |IntText(n)| <= 33
  {
    var v := if n < 0 then -n else n;
    LowerTableIsGood(10);
    NumeralValue(v, 10, DIGITS_LOWER);
    NumeralFits(v, 10, DIGITS_LOWER);
    hide Numeral, S.Horner, S.DigitOf, S.ValidDigit;
    StoredDigits(IntText(n));
  }

  lemma {:induction false} NumeralFits(v: nat, base: nat, digits: string)
    requires 3 <= base <= |digits| && v <= UINT_MAX
    ensures |Numeral(v, base, digits)| <= 32
  {
    ReversedProduced(v, base, digits);
    ScratchSufficesIff(v, base, digits);
    hide Significant, Produced, Reversed;
  }

  lemma {:induction false} ExpandDecimal(n: int)
    requires -INT_MAX <= n <= INT_MAX
    ensures Matches("%d", false, [IntArg(n)]) && Expanded("%d", false, [IntArg(n)]) == IntText(n)
  {
    hide IntText;
    var args := [IntArg(n)];
    assert "%d"[1..] == "d" && "d"[1..] == "" && args[1..] == [];
    assert Matches("d", true, args);
    ExpandStep("%d", false, args);
    ExpandStep("d", true, args);
    ExpandStep("", false, []);
  }

  /** The whole trip through a buffer. */
  method PrintThenParse(n: int) returns (m: int, consumed: nat, printed: nat)
    requires -INT_MAX <= n <= INT_MAX
    ensures m == n && consumed == printed == |IntText(n)|
  {
    hide IntText, Stored, Expanded, Matches, S.Strtol;
    var buf := new char[64](_ => '\0');
    ExpandDecimal(n);
    DecimalFits(n);
    DecimalRoundTrip(n);
    printed := Vsnprintf(buf, 64, "%d", [IntArg(n)]);
    assert buf[..printed] == IntText(n);
    var c := new S.StringToLongConverter(Some(buf[..printed]), 10);
    var endptr;
    m, endptr := c.Convert();
    consumed := endptr.value;
  }
}
