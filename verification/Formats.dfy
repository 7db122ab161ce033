/** What each directive of a format prints, and that formats are put together
    piece by piece. */
module Formats {
  import opened Basics
  import opened Printf
  import opened ParseText
  import opened NumberRoundTrip
  import S = StringToLong

  // ------------------------------------------------------------------ composition

  /** How many arguments a format consumes, and whether it ends inside a directive. */
  function ArgsOf(fmt: string, percent: bool): nat {
    if fmt == [] then 0
    else if !percent then ArgsOf(fmt[1..], fmt[0] == '%')
    else Consumes(fmt[0]) + ArgsOf(fmt[1..], false)
  }

  function OpenAfter(fmt: string, percent: bool): bool {
    if fmt == [] then percent else OpenAfter(fmt[1..], !percent && fmt[0] == '%')
  }

  /** The output of a format is that of its first part and then that of its second. */
  lemma {:induction false} ExpandAppend(f: string, percent: bool, a: seq<Arg>, g: string, b: seq<Arg>)
    requires Matches(f, percent, a) && |a| == ArgsOf(f, percent) && Matches(g, OpenAfter(f, percent), b)
    ensures Matches(f + g, percent, a + b)
    ensures Expanded(f + g, percent, a + b) == Expanded(f, percent, a) + Expanded(g, OpenAfter(f, percent), b)
    decreases |f|
  {
    hide Matches, Expanded, Converted, Accepts, Consumes;
    ExpandStep(f, percent, a);
    if f == [] {
      assert f + g == g && a + b == b && [] + Expanded(g, percent, b) == Expanded(g, percent, b);
    } else if !percent {
      ExpandAppend(f[1..], f[0] == '%', a, g, b);
      AppendText(f, a, g, b);
      var first := if f[0] == '%' then [] else [f[0]];
      Associate(first, Expanded(f[1..], f[0] == '%', a), Expanded(g, OpenAfter(f, false), b));
    } else {
      var rest := a[Consumes(f[0])..];
      ExpandAppend(f[1..], false, rest, g, b);
      AppendLetter(f, a, g, b);
      Associate(Converted(f[0], a), Expanded(f[1..], false, rest), Expanded(g, OpenAfter(f, true), b));
    }
  }

  lemma {:induction false} Associate(x: string, y: string, z: string)
    ensures x + (y + z) == (x + y) + z
  {
  }

  lemma {:induction false} AppendText(f: string, a: seq<Arg>, g: string, b: seq<Arg>)
    requires f != [] && Matches(f, false, a) && Matches(f[1..] + g, f[0] == '%', a + b)
    ensures Matches(f + g, false, a + b)
    ensures Expanded(f + g, false, a + b) ==
            (if f[0] == '%' then [] else [f[0]]) + Expanded(f[1..] + g, f[0] == '%', a + b)
  {
    assert (f + g)[0] == f[0] && (f + g)[1..] == f[1..] + g;
    assert Matches(f + g, false, a + b);
    hide Matches, Expanded;
    ExpandStep(f + g, false, a + b);
  }

  lemma {:induction false} AppendLetter(f: string, a: seq<Arg>, g: string, b: seq<Arg>)
    requires f != [] && Accepts(f[0], a) && Consumes(f[0]) <= |a|
    requires Matches(f[1..] + g, false, a[Consumes(f[0])..] + b)
    ensures Matches(f + g, true, a + b)
    ensures Expanded(f + g, true, a + b) ==
            Converted(f[0], a) + Expanded(f[1..] + g, false, a[Consumes(f[0])..] + b)
  {
    var n := Consumes(f[0]);
    SameArgument(f[0], a, b);
    assert (f + g)[0] == f[0] && (f + g)[1..] == f[1..] + g;
    assert a[n..] + b == (a + b)[n..];
    hide Accepts, Converted, Consumes;
    assert Matches(f + g, true, a + b);
    hide Matches, Expanded;
    ExpandStep(f + g, true, a + b);
  }

  lemma {:induction false} SameArgument(c: char, a: seq<Arg>, b: seq<Arg>)
    requires Accepts(c, a) && Consumes(c) <= |a|
    ensures Accepts(c, a + b) && Converted(c, a + b) == Converted(c, a)
  {
    if a == [] {
      assert a + b == b;
    } else {
      assert (a + b)[0] == a[0];
    }
  }

  /** Text without a percent sign prints itself. */
  lemma {:induction false} PlainText(f: string, args: seq<Arg>)
    requires '%' !in f
    ensures Matches(f, false, args) && Expanded(f, false, args) == f
  {
    if f == [] {
    } else {
      assert f[0] in f && f == [f[0]] + f[1..];
      PlainText(f[1..], args);
    }
  }

  // ------------------------------------------------------------------- directives

  lemma {:induction false} OneDirective(c: char, args: seq<Arg>)
    requires Accepts(c, args) && |args| == Consumes(c)
    ensures Matches(['%', c], false, args) && Expanded(['%', c], false, args) == Converted(c, args)
  {
    var f, g := ['%', c], [c];
    assert f[1..] == g && g[1..] == [] && args[Consumes(c)..] == [];
    assert Matches([], false, []) && Matches(g, true, args) && Matches(f, false, args);
    hide Matches, Expanded, Converted, Accepts, Consumes;
    ExpandStep(f, false, args);
    ExpandStep(g, true, args);
    ExpandStep([], false, []);
  }

  /** A numeral: digits of the table, and no zero in front of others. */
  ghost predicate IsNumeral(t: string, table: string) {
    && t != [] && (|t| > 1 ==> t[0] != '0')
    && forall k :: 0 <= k < |t| ==> t[k] in table
  }

  const DECIMAL := "0123456789"
  const HEX_LOWER := "0123456789abcdef"
  const HEX_UPPER := "0123456789ABCDEF"

  lemma {:induction false} Tables()
    ensures GoodTable(DIGITS_LOWER, 10) && DIGITS_LOWER[..10] == DECIMAL && DIGITS_LOWER[0] == '0'
    ensures GoodTable(DIGITS_LOWER, 16) && DIGITS_LOWER[..16] == HEX_LOWER
    ensures GoodTable(DIGITS_UPPER, 16) && DIGITS_UPPER[..16] == HEX_UPPER && DIGITS_UPPER[0] == '0'
  {
    LowerTableIsGood(10);
    LowerTableIsGood(16);
    UpperTableGoodIff(16);
    hide GoodTable;
  }

  /** "%u" prints the decimal numeral of its argument, and `strtol` reads it back. */
  lemma {:induction false} UnsignedDirective(u: nat)
    requires u <= UINT_MAX
    ensures Matches("%u", false, [UintArg(u)])
    ensures var t := Expanded("%u", false, [UintArg(u)]);
            IsNumeral(t, DECIMAL) && S.Strtol(Some(t), 10) == (u, Some(|t|))
  {
    OneDirective('u', [UintArg(u)]);
    assert ['%', 'u'] == "%u";
    Tables();
    hide Expanded, Matches, Numeral, GoodTable, S.Strtol, IsNumeral;
    PrintedNumeral(u, 10, DIGITS_LOWER, DECIMAL);
  }

  /** "%x" and "%X" print the hexadecimal numeral, in lower and in upper case. */
  lemma {:induction false} HexDirectives(u: nat)
    requires u <= UINT_MAX
    ensures Matches("%x", false, [UintArg(u)]) && Matches("%X", false, [UintArg(u)])
    ensures var t := Expanded("%x", false, [UintArg(u)]);
            IsNumeral(t, HEX_LOWER) && S.Strtol(Some(t), 16) == (u, Some(|t|))
    ensures var t := Expanded("%X", false, [UintArg(u)]);
            IsNumeral(t, HEX_UPPER) && S.Strtol(Some(t), 16) == (u, Some(|t|))
  {
    OneDirective('x', [UintArg(u)]);
    OneDirective('X', [UintArg(u)]);
    assert ['%', 'x'] == "%x" && ['%', 'X'] == "%X";
    Tables();
    hide Expanded, Matches, Numeral, GoodTable, S.Strtol, IsNumeral;
    PrintedNumeral(u, 16, DIGITS_LOWER, HEX_LOWER);
    PrintedNumeral(u, 16, DIGITS_UPPER, HEX_UPPER);
  }

  /** "%d" prints a minus for negative numbers and the decimal numeral of the magnitude. */
  lemma {:induction false} SignedDirective(n: int)
    requires -INT_MAX <= n <= INT_MAX
    ensures Matches("%d", false, [IntArg(n)])
    ensures var t := Expanded("%d", false, [IntArg(n)]);
            && (n >= 0 ==> IsNumeral(t, DECIMAL))
            && (n < 0 ==> t != [] && t[0] == '-' && IsNumeral(t[1..], DECIMAL))
            && S.Strtol(Some(t), 10) == (n, Some(|t|))
  {
    ExpandDecimal(n);
    DecimalRoundTrip(n);
    var v := if n < 0 then -n else n;
    assert n < 0 ==> IntText(n)[1..] == Numeral(v, 10, DIGITS_LOWER);
    Tables();
    hide Expanded, Matches, Numeral, GoodTable, S.Strtol, IsNumeral;
    PrintedNumeral(v, 10, DIGITS_LOWER, DECIMAL);
  }

  /** Strings, characters, and letters that are no directive. */
  lemma {:induction false} TextDirectives(s: string, c: char, d: char)
    requires d !in "duxXscp"
    ensures Matches("%s", false, [StringArg(Some(s))]) && Expanded("%s", false, [StringArg(Some(s))]) == s
    ensures Matches("%s", false, [StringArg(None)]) && Expanded("%s", false, [StringArg(None)]) == "(null)"
    ensures Matches("%c", false, [CharArg(c)]) && Expanded("%c", false, [CharArg(c)]) == [c]
    ensures Matches(['%', d], false, []) && Expanded(['%', d], false, []) == [d]
    ensures Matches("%%", false, []) && Expanded("%%", false, []) == "%"
  {
    assert ['%', 's'] == "%s" && ['%', 'c'] == "%c" && ['%', '%'] == "%%";
    OneDirective('s', [StringArg(Some(s))]);
    OneDirective('s', [StringArg(None)]);
    OneDirective('c', [CharArg(c)]);
    NoDirective(d);
    NoDirective('%');
    OneDirective(d, []);
    OneDirective('%', []);
    hide Expanded, Matches;
  }

  lemma {:induction false} NoDirective(d: char)
    requires d !in "duxXscp"
    ensures Accepts(d, []) && Consumes(d) == 0 && Converted(d, []) == [d]
  {
    assert forall e :: e in ['d', 'u', 'x', 'X', 's', 'c', 'p'] ==> e in "duxXscp";
    assert 'd' in "duxXscp" && 'u' in "duxXscp" && 'x' in "duxXscp" && 'X' in "duxXscp";
    assert 's' in "duxXscp" && 'c' in "duxXscp" && 'p' in "duxXscp";
    assert d in "duxXsc" ==> d in "duxXscp";
  }

  lemma {:induction false} PrintedNumeral(u: nat, base: nat, digits: string, table: string)
    requires base == 10 || base == 16
    requires GoodTable(digits, base) && table == digits[..base] && digits[0] == '0'
    ensures var t := Numeral(u, base, digits);
            IsNumeral(t, table) && S.Strtol(Some(t), base) == (u, Some(|t|))
  {
    BaseRoundTripIff(u, base, digits);
    FromTable(u, base, digits);
    NumeralValue(u, base, digits);
    hide S.Strtol, S.Horner;
  }

  lemma {:induction false} FromTable(u: nat, base: nat, digits: string)
    requires 2 <= base <= |digits|
    ensures forall k :: 0 <= k < |Numeral(u, base, digits)| ==> Numeral(u, base, digits)[k] in digits[..base]
  {
    assert digits[..base][0] == digits[0];
    SignificantFrom(u, base, digits);
    hide Significant;
  }

  lemma {:induction false} SignificantFrom(u: nat, base: nat, digits: string)
    requires 2 <= base <= |digits|
    ensures forall k :: 0 <= k < |Significant(u, base, digits)| ==> Significant(u, base, digits)[k] in digits[..base]
  {
    if u == 0 {
    } else {
      var (q, m) := DivMod(u, base);
      assert digits[..base][m] == digits[m];
      SignificantFrom(q, base, digits);
      assert Significant(u, base, digits) == Significant(q, base, digits) + [digits[m]];
      hide DivMod, Significant;
    }
  }

  // ------------------------------------------------------------- there is no other

  lemma {:induction false} DivModIs(q: nat, m: nat, base: nat)
    requires base >= 2 && m < base
    ensures DivMod(q * base + m, base) == (q, m)
  {
    if q == 0 {
    } else {
      DivModIs(q - 1, m, base);
      assert q * base + m - base == (q - 1) * base + m >= 0;
    }
  }

  lemma {:induction false} SignificantStep(q: nat, m: nat, base: nat, digits: string)
    requires 2 <= base <= |digits| && m < base && (q > 0 || m > 0)
    ensures q * base + m > 0
    ensures Significant(q * base + m, base, digits) == Significant(q, base, digits) + [digits[m]]
  {
    DivModIs(q, m, base);
    assert q > 0 ==> q * base > 0;
  }

  lemma {:induction false} DigitIn(c: char, base: nat, digits: string) returns (m: nat)
    requires GoodTable(digits, base) && digits[0] == '0' && c in digits[..base]
    ensures m < base && digits[m] == c && S.DigitOf(c) == m && (c != '0' ==> m > 0)
  {
    m :| 0 <= m < base && digits[..base][m] == c;
  }

  /** A numeral of a table is the one that is printed for its value. */
  lemma {:induction false} NumeralIsUnique(t: string, base: nat, digits: string)
    requires GoodTable(digits, base) && digits[0] == '0' && IsNumeral(t, digits[..base])
    ensures t == Numeral(S.Horner(t, base), base, digits)
  {
    if t[0] == '0' {
      JustZero(t, base);
    } else {
      hide S.Horner, Significant, GoodTable, S.DigitOf;
      SignificantIsUnique(t, base, digits);
    }
  }

  lemma {:induction false} JustZero(t: string, base: nat)
    requires |t| == 1 && t[0] == '0'
    ensures t == ['0'] && S.Horner(t, base) == 0
  {
    assert t[..0] == [];
  }

  lemma {:induction false} SignificantIsUnique(t: string, base: nat, digits: string)
    requires GoodTable(digits, base) && digits[0] == '0'
    requires t != [] ==> t[0] != '0'
    requires forall k :: 0 <= k < |t| ==> t[k] in digits[..base]
    ensures t == Significant(S.Horner(t, base), base, digits)
    ensures t != [] ==> S.Horner(t, base) > 0
  {
    if t == [] {
    } else {
      hide S.Horner, S.DigitOf, GoodTable, Significant;
      var front, c := t[..|t| - 1], t[|t| - 1];
      assert t == front + [c];
      SignificantIsUnique(front, base, digits);
      var m := DigitIn(c, base, digits);
      S.HornerAppend(front, c, base);
      SignificantStep(S.Horner(front, base), m, base, digits);
    }
  }

  // ------------------------------------------------------------- what is stored

  /** Exactly the printable characters, newline and tab are stored. */
  lemma {:induction false} StoredIff(s: string)
    ensures Stored(s) == s <==> forall k :: 0 <= k < |s| ==> 32 <= s[k] as int <= 126 || s[k] as int in {9, 10}
    ensures |Stored(s)| <= |s|
  {
    if s == [] {
    } else {
      StoredIff(s[1..]);
      assert s == [s[0]] + s[1..];
      if Stored(s) == s { assert Stored(s)[1..] == s[1..]; }
    }
  }
}
