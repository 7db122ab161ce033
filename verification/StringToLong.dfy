/** `strtol`: sign, base prefix, and digits summed from right to left. */
module StringToLong {
  import opened Basics

  /** The character at i of a C string; the terminator reads as NUL. */
  function At(s: string, i: nat): char { if i < |s| then s[i] else '\0' }

  predicate IsDigit(c: char) { '0' <= c <= '9' }
  predicate IsLower(c: char) { 'a' <= c <= 'z' }
  predicate IsUpper(c: char) { 'A' <= c <= 'Z' }

  function DigitOf(c: char): nat {
    if IsDigit(c) then c as int - '0' as int
    else if IsLower(c) then c as int - 'a' as int + 10
    else if IsUpper(c) then c as int - 'A' as int + 10
    else 0
  }

  predicate ValidDigit(c: char, base: nat) {
    (IsDigit(c) || IsLower(c) || IsUpper(c)) && DigitOf(c) < base
  }

  /** Where the digits that start at i end. */
  function EndOfDigits(s: string, i: nat, base: nat): (e: nat)
    requires i <= |s|
    ensures i <= e <= |s|
    decreases |s| - i
  {
    if i < |s| && ValidDigit(s[i], base) then EndOfDigits(s, i + 1, base) else i
  }

  function Pow(base: nat, e: nat): nat { if e == 0 then 1 else Pow(base, e - 1) * base }

  /** The value of a numeral, most significant digit first. */
  function Horner(ds: string, base: nat): nat {
    if ds == [] then 0 else Horner(ds[..|ds| - 1], base) * base + DigitOf(ds[|ds| - 1])
  }

  /** The sum that the parser computes: each digit times its power of the base. */
  function PowerSum(ds: string, base: nat): nat {
    if ds == [] then 0 else DigitOf(ds[0]) * Pow(base, |ds| - 1) + PowerSum(ds[1..], base)
  }

  lemma {:induction false} HornerAppend(ds: string, c: char, base: nat)
    ensures Horner(ds + [c], base) == Horner(ds, base) * base + DigitOf(c)
  {
    assert (ds + [c])[..|ds|] == ds;
  }

  lemma {:induction false} PowerSumAppend(ds: string, c: char, base: nat)
    ensures PowerSum(ds + [c], base) == PowerSum(ds, base) * base + DigitOf(c)
  {
    if ds == [] {
      assert (ds + [c])[1..] == [];
      assert Pow(base, 0) == 1;
    } else {
      assert (ds + [c])[1..] == ds[1..] + [c];
      PowerSumAppend(ds[1..], c, base);
      Regroup(DigitOf(ds[0]), Pow(base, |ds| - 1), PowerSum(ds[1..], base), base);
    }
  }

  lemma {:induction false} Regroup(d: nat, p: nat, rest: nat, base: nat)
    ensures d * (p * base) + rest * base == (d * p + rest) * base
  {
  }

  /** For every base and every digit string the two sums agree. */
  lemma {:induction false} PowerSumIsHorner(ds: string, base: nat)
    ensures PowerSum(ds, base) == Horner(ds, base)
  {
    if ds != [] {
      var front := ds[..|ds| - 1];
      assert ds == front + [ds[|ds| - 1]];
      PowerSumAppend(front, ds[|ds| - 1], base);
      PowerSumIsHorner(front, base);
    }
  }

  /** No intermediate result exceeds the value when the first digit is not zero:
      every power that is formed and every partial sum is bounded by it. */
  lemma {:induction false} IntermediatesAreBounded(ds: string, base: nat, k: nat)
    requires k < |ds| && DigitOf(ds[0]) > 0 && base > 0
    ensures Pow(base, |ds| - 1 - k) <= PowerSum(ds, base)
    ensures PowerSum(ds[k..], base) <= PowerSum(ds, base)
  {
    var p := Pow(base, |ds| - 1);
    PowMonotone(base, |ds| - 1 - k, |ds| - 1);
    assert DigitOf(ds[0]) * p >= p by { assert (DigitOf(ds[0]) - 1) * p >= 0; }
    SuffixBounded(ds, base, k);
  }

  lemma {:induction false} PowMonotone(base: nat, a: nat, b: nat)
    requires base > 0 && a <= b
    ensures 0 < Pow(base, a) <= Pow(base, b)
    decreases b
  {
    if b == 0 {
    } else {
      PowMonotone(base, if a < b then a else 0, b - 1);
      NotSmaller(Pow(base, b - 1), base);
    }
  }

  lemma {:induction false} NotSmaller(x: nat, m: nat)
    requires m > 0
    ensures x * m >= x
  {
    assert x * (m - 1) >= 0;
  }

  lemma {:induction false} SuffixBounded(ds: string, base: nat, k: nat)
    requires k <= |ds|
    ensures PowerSum(ds[k..], base) <= PowerSum(ds, base)
    decreases k
  {
    if k == 0 {
      assert ds[0..] == ds;
    } else {
      assert DigitOf(ds[0]) * Pow(base, |ds| - 1) >= 0;
      assert ds[1..][k - 1..] == ds[k..];
      SuffixBounded(ds[1..], base, k - 1);
    }
  }

  // ----------------------------------------------------------- what strtol means

  datatype Parsed = Parsed(value: int, end: nat)

  function SignLength(s: string): nat { if At(s, 0) == '+' || At(s, 0) == '-' then 1 else 0 }

  predicate OctalPrefix(s: string, i: nat) { At(s, i) == '0' && At(s, i + 1) != 'x' }

  predicate HexPrefix(s: string, i: nat) { At(s, i) == '0' && At(s, i + 1) == 'x' }

  /** The base that is used, and how long its prefix is. */
  function Prefix(s: string, i: nat, base: nat): (r: (nat, nat))
    requires i <= |s|
    ensures i + r.1 <= |s|
  {
    if (base == 0 || base == 8) && OctalPrefix(s, i) then (8, 1)
    else if (base == 0 || base == 16) && HexPrefix(s, i) then (16, 2)
    else if base == 0 then (10, 0)
    else (base, 0)
  }

  function Parse(s: string, base: nat): Parsed {
    var sign := SignLength(s);
    var (b, prefix) := Prefix(s, sign, base);
    var i := sign + prefix;
    var e := EndOfDigits(s, i, b);
    if e == i then Parsed(0, 0)
    else Parsed((if At(s, 0) == '-' then -1 else 1) * Horner(s[i..e], b), e)
  }

  /** What `strtol` returns and what it writes to the end pointer. A missing string
      and a base outside 0 to 34 are refused; then the end pointer is left alone. */
  function Strtol(s: Option<string>, base: int): (int, Option<nat>) {
    if s.None? || base < 0 || base >= 35 then (0, None)
    else var p := Parse(s.value, base); (p.value, Some(p.end))
  }

  /** The converter object of one call: a cursor into the string and the base. */
  class StringToLongConverter {
    const original: Option<string>
    var str: nat
    var base: int

    constructor (original: Option<string>, base: int)
      ensures this.original == original && this.base == base && str == 0
    {
      this.original, this.base, str := original, base, 0;
    }

    method EatSign() returns (multiplier: int)
      requires original.Some? && str == 0
      modifies this`str
      ensures str == SignLength(original.value)
      ensures multiplier == if At(original.value, 0) == '-' then -1 else 1
    {
      multiplier := 1;
      if At(original.value, str) == '+' {
        str := str + 1;
      } else if At(original.value, str) == '-' {
        multiplier := -1;
        str := str + 1;
      }
    }

    method EatBasePrefix()
      requires original.Some? && str <= |original.value| && base >= 0
      modifies this
      ensures base >= 0 && (base, str) == (Prefix(original.value, old(str), old(base)).0,
                                           old(str) + Prefix(original.value, old(str), old(base)).1)
    {
      var s := original.value;
      if (base == 0 || base == 8) && OctalPrefix(s, str) {
        base := 8;
        str := str + 1;
      } else if (base == 0 || base == 16) && HexPrefix(s, str) {
        base := 16;
        str := str + 2;
      } else if base == 0 {
        base := 10;
      }
    }

    method ScanToEndOfNumber() returns (e: nat)
      requires original.Some? && str <= |original.value| && base >= 0
      ensures e == EndOfDigits(original.value, str, base)
    {
      e := str;
      while ValidDigit(At(original.value, e), base)
        invariant str <= e <= |original.value|
        invariant EndOfDigits(original.value, str, base) == EndOfDigits(original.value, e, base)
        decreases |original.value| - e
      {
        e := e + 1;
      }
    }

    method PowLong(exponent: nat) returns (value: int)
      requires base >= 0
      ensures value == Pow(base, exponent)
    {
      value := 1;
      var n := 0;
      while n < exponent
        invariant 0 <= n <= exponent && value == Pow(base, n)
      {
        value := value * base;
        n := n + 1;
      }
    }

    method ParseNumberDigits(e: nat) returns (accum: int)
      requires original.Some? && base >= 0 && str <= e <= |original.value|
      requires forall k :: str <= k < e ==> ValidDigit(original.value[k], base)
      ensures accum == Horner(original.value[str..e], base)
    {
      var s := original.value;
      accum := 0;
      var exponent, p := 0, e;
      while p > str && ValidDigit(s[p - 1], base)
        invariant str <= p <= e && exponent == e - p
        invariant accum == PowerSum(s[p..e], base)
        decreases p
      {
        p := p - 1;
        var power := PowLong(exponent);
        accum := accum + DigitOf(s[p]) * power;
        exponent := exponent + 1;
        assert s[p..e][1..] == s[p + 1..e];
      }
      PowerSumIsHorner(s[str..e], base);
    }

    method Convert() returns (result: int, endptr: Option<nat>)
      requires str == 0
      modifies this
      ensures (result, endptr) == Strtol(original, old(base))
    {
      if original.None? {
        return 0, None;
      }
      if base < 0 || base >= 35 {
        return 0, None;
      }
      var multiplier := EatSign();
      EatBasePrefix();
      var e := ScanToEndOfNumber();
      if e == str {
        return 0, Some(0);
      }
      DigitsAreValid(original.value, str, base);
      var unsigned := ParseNumberDigits(e);
      return unsigned * multiplier, Some(e);
    }
  }

  lemma {:induction false} DigitsAreValid(s: string, i: nat, base: nat)
    requires i <= |s|
    ensures forall k :: i <= k < EndOfDigits(s, i, base) ==> ValidDigit(s[k], base)
    decreases |s| - i
  {
    if i == |s| || !ValidDigit(s[i], base) {
    } else {
      DigitsAreValid(s, i + 1, base);
    }
  }
}
