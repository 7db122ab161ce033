/** What `strtol` makes of a text, by the shape of the text: a sign, a base prefix,
    digits, and whatever follows. */
module ParseText {
  import opened Basics
  import opened StringToLong

  ghost predicate Digits(text: string, base: nat) {
    forall k :: 0 <= k < |text| ==> ValidDigit(text[k], base)
  }

  /** The digits end here. */
  predicate Ends(rest: string, base: nat) { rest == [] || !ValidDigit(rest[0], base) }

  predicate IsSign(sign: string) { sign == "" || sign == "+" || sign == "-" }

  function Times(negative: bool, v: int): int { if negative then -v else v }

  lemma {:induction false} ScanTo(s: string, i: nat, e: nat, base: nat)
    requires i <= e <= |s| && Digits(s[i..e], base) && Ends(s[e..], base)
    ensures EndOfDigits(s, i, base) == e
    decreases e - i
  {
    if i == e {
    } else {
      assert s[i..e][0] == s[i];
      assert s[i + 1..e] == s[i..e][1..];
      ScanTo(s, i + 1, e, base);
    }
  }

  /** Digits from i to e, behind the sign and the base prefix. */
  lemma {:induction false} ParseAt(s: string, base: nat, b: nat, i: nat, e: nat)
    requires i <= e <= |s| && Digits(s[i..e], b) && Ends(s[e..], b)
    requires SignLength(s) <= i && Prefix(s, SignLength(s), base) == (b, i - SignLength(s))
    ensures Parse(s, base) ==
            if i == e then Parsed(0, 0) else Parsed(Times(At(s, 0) == '-', Horner(s[i..e], b)), e)
  {
    ScanTo(s, i, e, b);
    hide Horner, EndOfDigits, Prefix, At, SignLength, Digits, Ends;
  }

  /** What is seen behind a sign. */
  lemma {:induction false} BehindSign(sign: string, tail: string)
    requires IsSign(sign) && (sign == "" && tail != [] ==> tail[0] != '+' && tail[0] != '-')
    ensures SignLength(sign + tail) == |sign| && (At(sign + tail, 0) == '-' <==> sign == "-")
    ensures (sign + tail)[|sign|..] == tail
    ensures At(sign + tail, |sign|) == At(tail, 0) && At(sign + tail, |sign| + 1) == At(tail, 1)
  {
    if sign == "" { assert sign + tail == tail; }
  }

  lemma {:induction false} Parts(sign: string, pre: string, text: string, rest: string)
    ensures var s, i := sign + (pre + text + rest), |sign| + |pre|;
            && s[i..i + |text|] == text && s[i + |text|..] == rest
  {
    assert sign + (pre + text + rest) == (sign + pre) + (text + rest);
    Middle(sign + pre, text, rest);
  }

  lemma {:induction false} Middle(front: string, text: string, rest: string)
    ensures var s := front + (text + rest);
            s[|front|..|front| + |text|] == text && s[|front| + |text|..] == rest
  {
    var s := front + (text + rest);
    forall k | 0 <= k < |text| ensures s[|front| + k] == text[k] { assert (text + rest)[k] == text[k]; }
    forall k | 0 <= k < |rest| ensures s[|front| + |text| + k] == rest[k] {
      assert (text + rest)[|text| + k] == rest[k];
    }
  }

  /** A sign, a prefix, digits and the rest. */
  lemma {:induction false} ParseShape(sign: string, pre: string, text: string, rest: string, base: nat, b: nat)
    requires IsSign(sign) && Digits(text, b) && Ends(rest, b)
    requires var tail := pre + text + rest;
             && (sign == "" && tail != [] ==> tail[0] != '+' && tail[0] != '-')
             && Prefix(sign + tail, |sign|, base) == (b, |pre|)
    ensures Parse(sign + (pre + text + rest), base) ==
            if text == [] then Parsed(0, 0)
            else Parsed(Times(sign == "-", Horner(text, b)), |sign| + |pre| + |text|)
  {
    var tail := pre + text + rest;
    var s, i, e := sign + tail, |sign| + |pre|, |sign| + |pre| + |text|;
    hide Parse, Horner, Prefix, At, SignLength, ValidDigit;
    BehindSign(sign, tail);
    Parts(sign, pre, text, rest);
    ParseAt(s, base, b, i, e);
  }

  function BaseOf(base: nat): nat { if base == 0 then 10 else base }

  /** No octal or hexadecimal prefix: the digits are those of the base, which is 10 when
      it is left open, and what follows them is not read. */
  lemma {:induction false} ParseDigits(sign: string, text: string, rest: string, base: nat)
    requires IsSign(sign) && base < 35 && text != [] && Digits(text, BaseOf(base)) && Ends(rest, BaseOf(base))
    requires base == 0 || base == 8 ==> text[0] != '0'
    requires base == 16 && text == "0" ==> rest == [] || rest[0] != 'x'
    ensures Strtol(Some(sign + (text + rest)), base) ==
            (Times(sign == "-", Horner(text, BaseOf(base))), Some(|sign| + |text|))
  {
    hide Parse, Horner, Prefix, At, SignLength, ValidDigit;
    DigitsFirst(text, rest, BaseOf(base));
    NoPrefix(sign, text, rest, base);
    ParseShape(sign, [], text, rest, base, BaseOf(base));
  }

  lemma {:induction false} DigitsFirst(text: string, rest: string, b: nat)
    requires text != [] && Digits(text, b)
    ensures [] + text + rest == text + rest && (text + rest)[0] == text[0] && ValidDigit(text[0], b)
    ensures text[0] != '+' && text[0] != '-'
  {
  }

  lemma {:induction false} NoPrefix(sign: string, text: string, rest: string, base: nat)
    requires IsSign(sign) && text != [] && Digits(text, BaseOf(base))
    requires base == 0 || base == 8 ==> text[0] != '0'
    requires base == 16 && text == "0" ==> rest == [] || rest[0] != 'x'
    ensures Prefix(sign + (text + rest), |sign|, base) == (BaseOf(base), 0)
  {
    var tail := text + rest;
    assert tail[0] == text[0] && ValidDigit(text[0], BaseOf(base));
    BehindSign(sign, tail);
    if base == 16 && text[0] == '0' {
      if |text| > 1 {
        assert tail[1] == text[1] && ValidDigit(text[1], 16);
      } else {
        assert text == "0";
        assert rest != [] ==> tail[1] == rest[0];
      }
    }
    hide BaseOf;
  }

  /** A leading zero announces octal digits when the base is 8 or left open; with no
      octal digit behind it, it is not accepted as a number at all. */
  lemma {:induction false} ParseOctal(sign: string, text: string, rest: string, base: nat)
    requires IsSign(sign) && (base == 0 || base == 8) && Digits(text, 8) && Ends(rest, 8)
    requires text == [] ==> rest == [] || rest[0] != 'x'
    ensures Strtol(Some(sign + ("0" + text + rest)), base) ==
            if text == [] then (0, Some(0)) else (Times(sign == "-", Horner(text, 8)), Some(|sign| + 1 + |text|))
  {
    var tail := "0" + text + rest;
    BehindSign(sign, tail);
    if text != [] {
      assert tail[1] == text[0] && ValidDigit(text[0], 8);
    } else if rest != [] {
      assert tail[1] == rest[0];
    }
    assert Prefix(sign + tail, |sign|, base) == (8, 1);
    hide Parse, Horner, Prefix, At, SignLength;
    ParseShape(sign, "0", text, rest, base, 8);
  }

  /** "0x" announces hexadecimal digits when the base is 16 or left open. */
  lemma {:induction false} ParseHex(sign: string, text: string, rest: string, base: nat)
    requires IsSign(sign) && (base == 0 || base == 16) && Digits(text, 16) && Ends(rest, 16)
    ensures Strtol(Some(sign + ("0x" + text + rest)), base) ==
            if text == [] then (0, Some(0)) else (Times(sign == "-", Horner(text, 16)), Some(|sign| + 2 + |text|))
  {
    var tail := "0x" + text + rest;
    BehindSign(sign, tail);
    assert Prefix(sign + tail, |sign|, base) == (16, 2);
    hide Parse, Horner, Prefix, At, SignLength;
    ParseShape(sign, "0x", text, rest, base, 16);
  }

  /** Without a digit behind the sign, nothing is consumed, not even the sign. */
  lemma {:induction false} ParseNothing(sign: string, rest: string, base: nat)
    requires IsSign(sign) && base < 35 && Ends(rest, BaseOf(base))
    requires sign == "" && rest != [] ==> rest[0] != '+' && rest[0] != '-'
    ensures Strtol(Some(sign + rest), base) == (0, Some(0))
  {
    BehindSign(sign, rest);
    assert Prefix(sign + rest, |sign|, base) == (BaseOf(base), 0);
    assert [] + [] + rest == rest;
    hide Parse, Horner, Prefix, At, SignLength;
    ParseShape(sign, [], [], rest, base, BaseOf(base));
  }

  /** The parts of any text. They fit one of the shapes above, and `strtol` returns the
      value of the digits and the position behind them, or nothing if there are none. */
  lemma {:induction false} EveryText(s: string, base: nat)
    returns (sign: string, pre: string, text: string, rest: string, b: nat)
    requires base < 35
    ensures s == sign + (pre + text + rest) && IsSign(sign) && Digits(text, b) && Ends(rest, b)
    ensures || (pre == "" && b == BaseOf(base))
            || (pre == "0" && b == 8 && (base == 0 || base == 8))
            || (pre == "0x" && b == 16 && (base == 0 || base == 16))
    ensures Strtol(Some(s), base) ==
            if text == [] then (0, Some(0))
            else (Times(sign == "-", Horner(text, b)), Some(|sign| + |pre| + |text|))
  {
    hide Parse, Horner, EndOfDigits, Prefix, SignLength, At, Digits, Ends, IsSign, BaseOf, Times;
    var n := SignLength(s);
    SignPart(s);
    var (b', p) := Prefix(s, n, base);
    b := b';
    PrefixPart(s, n, base);
    var i := n + p;
    var e := EndOfDigits(s, i, b);
    DigitPart(s, i, b);
    sign, pre, text, rest := s[..n], s[n..i], s[i..e], s[e..];
    Pieces(s, n, i, e);
    ParseAt(s, base, b, i, e);
  }

  lemma {:induction false} Pieces(s: string, n: nat, i: nat, e: nat)
    requires n <= i <= e <= |s|
    ensures s == s[..n] + (s[n..i] + s[i..e] + s[e..])
  {
  }

  lemma {:induction false} SignPart(s: string)
    ensures SignLength(s) <= |s| && IsSign(s[..SignLength(s)])
    ensures s[..SignLength(s)] == "-" <==> At(s, 0) == '-'
  {
    if SignLength(s) == 1 { assert s[..1] == [s[0]]; }
  }

  lemma {:induction false} PrefixPart(s: string, n: nat, base: nat)
    requires n <= |s|
    ensures var (b, p) := Prefix(s, n, base);
            && n + p <= |s|
            && (|| (s[n..n + p] == "" && b == BaseOf(base))
                || (s[n..n + p] == "0" && b == 8 && (base == 0 || base == 8))
                || (s[n..n + p] == "0x" && b == 16 && (base == 0 || base == 16)))
  {
    var p := Prefix(s, n, base).1;
    if p == 1 { assert s[n..n + 1] == [s[n]]; }
    if p == 2 { assert s[n..n + 2] == [s[n], s[n + 1]]; }
  }

  lemma {:induction false} DigitPart(s: string, i: nat, b: nat)
    requires i <= |s|
    ensures var e := EndOfDigits(s, i, b);
            i <= e <= |s| && Digits(s[i..e], b) && Ends(s[e..], b)
  {
    DigitsAreValid(s, i, b);
    StopsThere(s, i, b);
    hide EndOfDigits, ValidDigit;
  }

  lemma {:induction false} StopsThere(s: string, i: nat, base: nat)
    requires i <= |s|
    ensures var e := EndOfDigits(s, i, base);
            e == |s| || !ValidDigit(s[e], base)
    decreases |s| - i
  {
    if i == |s| || !ValidDigit(s[i], base) {
    } else {
      StopsThere(s, i + 1, base);
    }
  }

  /** Letters count from ten on, in either case; nothing else is a digit. */
  lemma {:induction false} DigitValues(c: char)
    ensures '0' <= c <= '9' ==> ValidDigit(c, 36) && DigitOf(c) == c as int - 0x30
    ensures 'a' <= c <= 'z' ==> ValidDigit(c, 36) && DigitOf(c) == 10 + (c as int - 0x61)
    ensures 'A' <= c <= 'Z' ==> ValidDigit(c, 36) && DigitOf(c) == 10 + (c as int - 0x41)
    ensures forall b: nat :: ValidDigit(c, b) <==> ValidDigit(c, 36) && DigitOf(c) < b
    ensures ValidDigit(c, 36) <==> '0' <= c <= '9' || 'a' <= c <= 'z' || 'A' <= c <= 'Z'
  {
  }
}
