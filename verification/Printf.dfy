/** `vsnprintf`: integer conversions and output into a buffer of limited size. */
module Printf {
  import opened Basics

  const DIGITS_LOWER := "0123456789abcdefghijklmnopqrstuvwxyz"
  const DIGITS_UPPER := "0123456789ABCDEFGHIJKLOMNPQRSTUVWXYZ"

  const INT_MAX: int := 0x7FFF_FFFF
  const UINT_MAX: nat := 0xFFFF_FFFF

  // ------------------------------------------------------------------- numerals

  /** Quotient and remainder, by repeated subtraction. */
  function DivMod(v: nat, base: nat): (r: (nat, nat))
    requires base >= 2
    ensures r.1 < base && v == r.0 * base + r.1
    ensures 2 * r.0 <= v
  {
    if v < base then (0, v)
    else
      var (q, m) := DivMod(v - base, base);
      assert (q + 1) * base == q * base + base;
      (q + 1, m)
  }

  /** The digits of a positive number in the order in which they are produced. */
  function Produced(value: nat, base: nat, digits: string): string
    requires 2 <= base <= |digits|
  {
    if value == 0 then []
    else
      var (q, m) := DivMod(value, base);
      [digits[m]] + Produced(q, base, digits)
  }

  /** The digits, most significant first; empty for zero. */
  function Significant(value: nat, base: nat, digits: string): string
    requires 2 <= base <= |digits|
  {
    if value == 0 then []
    else
      var (q, m) := DivMod(value, base);
      Significant(q, base, digits) + [digits[m]]
  }

  /** The numeral of an unsigned value. */
  function Numeral(value: nat, base: nat, digits: string): string
    requires 2 <= base <= |digits|
  {
    if value == 0 then [digits[0]] else Significant(value, base, digits)
  }

  function Reversed(s: string): (r: string)
    ensures |r| == |s| && forall k :: 0 <= k < |s| ==> r[k] == s[|s| - 1 - k]
  {
    if s == [] then [] else Reversed(s[1..]) + [s[0]]
  }

  lemma {:induction false} ReversedProduced(value: nat, base: nat, digits: string)
    requires 2 <= base <= |digits|
    ensures Reversed(Produced(value, base, digits)) == Significant(value, base, digits)
  {
    if value == 0 {
    } else {
      ReversedProduced(DivMod(value, base).0, base, digits);
    }
  }

  lemma {:induction false} ProducedLength(value: nat, base: nat, digits: string, k: nat)
    requires 2 <= base <= |digits| && value < Pow2(k)
    ensures |Produced(value, base, digits)| <= k
  {
    if value == 0 {
    } else {
      ProducedLength(DivMod(value, base).0, base, digits, k - 1);
    }
  }

  lemma {:induction false} Pow2Add(a: nat, b: nat)
    ensures Pow2(a + b) == Pow2(a) * Pow2(b)
  {
    if a == 0 {
    } else {
      Pow2Add(a - 1, b);
    }
  }

  lemma {:induction false} Pow2Doubles(k: nat)
    ensures Pow2(2 * k) == Pow2(k) * Pow2(k) && Pow2(4) == 16
  {
    Pow2Add(k, k);
    assert Pow2(2) == 4;
  }

  /** In base 2 every doubling takes a digit. */
  lemma {:induction false} BinaryLength(value: nat, digits: string, k: nat)
    requires 2 <= |digits| && value >= Pow2(k)
    ensures |Produced(value, 2, digits)| > k
  {
    if k == 0 {
    } else {
      BinaryLength(DivMod(value, 2).0, digits, k - 1);
    }
  }

  lemma {:induction false} Pow2Word()
    ensures Pow2(32) == 0x1_0000_0000 && Pow2(31) == 0x8000_0000 && Pow2(29) == 0x2000_0000
  {
    Pow2Doubles(4);
    Pow2Doubles(8);
    Pow2Doubles(16);
    assert Pow2(32) == 2 * Pow2(31) && Pow2(31) == 2 * Pow2(30) && Pow2(30) == 2 * Pow2(29);
  }

  /** The 32-character scratch buffer has room for the numeral of a 32-bit value and
      the NUL that ends it, exactly when the base is at least 3 or the value has 31
      bits. The formats use bases 10 and 16. */
  lemma {:induction false} ScratchSufficesIff(value: nat, base: nat, digits: string)
    requires 2 <= base <= |digits| && value <= UINT_MAX
    ensures |Produced(value, base, digits)| < 32 <==> base >= 3 || value < 0x8000_0000
  {
    Pow2Word();
    hide Pow2;
    if value < 0x8000_0000 {
      ProducedLength(value, base, digits, 31);
    } else if base == 2 {
      BinaryLength(value, digits, 31);
    } else {
      var q := DivMod(value, base).0;
      var p := DivMod(q, base).0;
      Thirds(value, base);
      Thirds(q, base);
      hide DivMod;
      ProducedLength(p, base, digits, 29);
    }
  }

  lemma {:induction false} Thirds(v: nat, base: nat)
    requires base >= 3
    ensures 3 * DivMod(v, base).0 <= v
  {
    if v < base {
    } else {
      Thirds(v - base, base);
    }
  }

  /** Reverses the characters from `begin` to `end`, both included, in place. */
  method Reverse(a: array<char>, begin: nat, end: nat)
    requires begin <= end < a.Length
    modifies a
    ensures a[begin..end + 1] == Reversed(old(a[begin..end + 1]))
    ensures forall k :: 0 <= k < a.Length && !(begin <= k <= end) ==> a[k] == old(a[k])
  {
    var i, j := begin, end;
    while j > i
      invariant begin <= i <= j + 1 && j <= end && i - begin == end - j
      invariant forall k :: 0 <= k < a.Length && !(begin <= k <= end) ==> a[k] == old(a[k])
      invariant forall k :: i <= k <= j ==> a[k] == old(a[k])
      invariant forall k :: begin <= k < i ==> a[k] == old(a[begin + end - k])
      invariant forall k :: j < k <= end ==> a[k] == old(a[begin + end - k])
    {
      a[i], a[j] := a[j], a[i];
      i := i + 1;
      j := j - 1;
    }
    IsReversed(old(a[begin..end + 1]), a[begin..end + 1]);
  }

  lemma {:induction false} IsReversed(s: string, t: string)
    requires |t| == |s| && forall k :: 0 <= k < |s| ==> t[k] == s[|s| - 1 - k]
    ensures t == Reversed(s)
  {
  }

  /** Fills the scratch buffer with the digits of a value, last digit first. */
  method ProduceDigits(tmp: array<char>, value: nat, base: nat, digits: string) returns (n: nat)
    requires 2 <= base <= |digits| && value > 0 && |Produced(value, base, digits)| <= tmp.Length
    modifies tmp
    ensures 0 < n <= tmp.Length && tmp[..n] == Produced(value, base, digits)
    ensures forall k :: n <= k < tmp.Length ==> tmp[k] == old(tmp[k])
  {
    n := 0;
    var v := value;
    while v > 0
      invariant 0 <= v && n + |Produced(v, base, digits)| <= tmp.Length
      invariant tmp[..n] + Produced(v, base, digits) == Produced(value, base, digits)
      invariant forall k :: n <= k < tmp.Length ==> tmp[k] == old(tmp[k])
      decreases v
    {
      hide DivMod;
      var (q, m) := DivMod(v, base);
      ghost var rest := Produced(q, base, digits);
      assert Produced(v, base, digits) == [digits[m]] + rest;
      ghost var done := tmp[..n];
      tmp[n] := digits[m];
      assert tmp[..n + 1] == done + [digits[m]];
      n := n + 1;
      v := q;
    }
  }

  lemma {:induction false} ProducedFrom(value: nat, base: nat, digits: string)
    requires 2 <= base <= |digits| && '\0' !in digits[..base]
    ensures '\0' !in Produced(value, base, digits)
  {
    if value == 0 {
    } else {
      assert digits[DivMod(value, base).1] in digits[..base];
      ProducedFrom(DivMod(value, base).0, base, digits);
    }
  }

  /** The C string at the start of a buffer: everything up to the first NUL. */
  method ReadString(tmp: array<char>, ghost n: nat) returns (text: string)
    requires n < tmp.Length && tmp[n] == '\0' && forall k :: 0 <= k < n ==> tmp[k] != '\0'
    ensures text == tmp[..n]
  {
    var i := 0;
    while tmp[i] != '\0'
      invariant 0 <= i <= n
      decreases n - i
    {
      i := i + 1;
    }
    text := tmp[..i];
  }

  /** Writes the numeral of a value into the scratch buffer and reads it back. */
  method FormatUnsigned(value: nat, base: nat, digits: string) returns (text: string)
    requires 2 <= base <= |digits| && '\0' !in digits[..base] && value <= UINT_MAX && (base >= 3 || value < 0x8000_0000)
    ensures text == Numeral(value, base, digits)
  {
    hide Produced, Significant, DivMod, Reversed;
    ScratchSufficesIff(value, base, digits);
    ReversedProduced(value, base, digits);
    ProducedFrom(value, base, digits);
    var tmp := new char[32](_ => '\0');
    if value == 0 {
      assert digits[..base][0] == digits[0];
      tmp[0] := digits[0];
      text := ReadString(tmp, 1);
    } else {
      var n := ProduceDigits(tmp, value, base, digits);
      ghost var produced := tmp[..n];
      assert tmp[0..n - 1 + 1] == tmp[..n];
      Reverse(tmp, 0, n - 1);
      assert tmp[0..n - 1 + 1] == tmp[..n];
      ReversedKeeps(produced, '\0');
      text := ReadString(tmp, n);
    }
  }

  lemma {:induction false} ReversedKeeps(s: string, c: char)
    requires c !in s
    ensures c !in Reversed(s)
  {
  }

  // --------------------------------------------------------------------- output

  datatype Arg =
    | IntArg(i: int)
    | UintArg(u: nat)
    | StringArg(s: Option<string>)
    | CharArg(c: char)

  /** Only printable characters, newline and tab reach the buffer. */
  predicate Storable(c: char) { ' ' <= c <= '~' || c == '\n' || c == '\t' }

  function Stored(s: string): string {
    if s == [] then [] else (if Storable(s[0]) then [s[0]] else []) + Stored(s[1..])
  }

  lemma {:induction false} StoredAppend(a: string, b: string)
    ensures Stored(a + b) == Stored(a) + Stored(b)
  {
    if a == [] {
      assert a + b == b;
    } else {
      assert (a + b)[0] == a[0] && (a + b)[1..] == a[1..] + b;
      StoredAppend(a[1..], b);
      var first := if Storable(a[0]) then [a[0]] else [];
      assert first + (Stored(a[1..]) + Stored(b)) == (first + Stored(a[1..])) + Stored(b);
    }
  }

  function IntText(i: int): string {
    if i < 0 then "-" + Numeral(-i, 10, DIGITS_LOWER) else Numeral(i, 10, DIGITS_LOWER)
  }

  function StringText(s: Option<string>): string { if s == None then "(null)" else s.value }

  /** The conversions that consume an argument, and what they demand of it. */
  predicate Accepts(c: char, args: seq<Arg>) {
    match c
    case 'd' => |args| > 0 && args[0].IntArg? && -INT_MAX <= args[0].i <= INT_MAX
    case 'u' => |args| > 0 && args[0].UintArg? && args[0].u <= UINT_MAX
    case 'x' => |args| > 0 && args[0].UintArg? && args[0].u <= UINT_MAX
    case 'X' => |args| > 0 && args[0].UintArg? && args[0].u <= UINT_MAX
    case 's' => |args| > 0 && args[0].StringArg?
    case 'c' => |args| > 0 && args[0].CharArg?
    case 'p' => false
    case _ => true
  }

  function Consumes(c: char): nat { if c in "duxXsc" then 1 else 0 }

  /** What one conversion prints. */
  function Converted(c: char, args: seq<Arg>): string
    requires Accepts(c, args)
  {
    match c
    case 'd' => IntText(args[0].i)
    case 'u' => Numeral(args[0].u, 10, DIGITS_LOWER)
    case 'x' => Numeral(args[0].u, 16, DIGITS_LOWER)
    case 'X' => Numeral(args[0].u, 16, DIGITS_UPPER)
    case 's' => StringText(args[0].s)
    case 'c' => [args[0].c]
    case _ => [c]
  }

  /** The arguments are the ones that the format asks for, and there is no `%p`. */
  predicate Matches(fmt: string, percent: bool, args: seq<Arg>)
    decreases |fmt|
  {
    fmt == [] ||
    if !percent then Matches(fmt[1..], fmt[0] == '%', args)
    else Accepts(fmt[0], args) && Consumes(fmt[0]) <= |args| && Matches(fmt[1..], false, args[Consumes(fmt[0])..])
  }

  /** The output without any limit. */
  function Expanded(fmt: string, percent: bool, args: seq<Arg>): string
    requires Matches(fmt, percent, args)
    decreases |fmt|
  {
    if fmt == [] then []
    else if !percent then
      (if fmt[0] == '%' then [] else [fmt[0]]) + Expanded(fmt[1..], fmt[0] == '%', args)
    else
      Converted(fmt[0], args) + Expanded(fmt[1..], false, args[Consumes(fmt[0])..])
  }

  lemma {:induction false} ExpandStep(fmt: string, percent: bool, args: seq<Arg>)
    requires Matches(fmt, percent, args)
    ensures fmt == [] ==> Expanded(fmt, percent, args) == []
    ensures fmt != [] && !percent ==>
              && Matches(fmt[1..], fmt[0] == '%', args)
              && Expanded(fmt, percent, args) ==
                 (if fmt[0] == '%' then [] else [fmt[0]]) + Expanded(fmt[1..], fmt[0] == '%', args)
    ensures fmt != [] && percent ==>
              && Accepts(fmt[0], args) && Consumes(fmt[0]) <= |args|
              && Matches(fmt[1..], false, args[Consumes(fmt[0])..])
              && Expanded(fmt, percent, args) ==
                 Converted(fmt[0], args) + Expanded(fmt[1..], false, args[Consumes(fmt[0])..])
  {
  }

  /** A moving position in the caller's buffer and the space that is left there. */
  class Writer {
    const buf: array<char>
    const limit: nat
    var str: nat
    var size: nat
    ghost var out: string

    ghost predicate Valid()
      reads this, buf
    {
      && 1 <= size && str + size == limit <= buf.Length
      && str == (if |Stored(out)| < limit then |Stored(out)| else limit - 1)
      && buf[..str] == Stored(out)[..str]
    }

    constructor (buf: array<char>, limit: nat)
      requires 1 <= limit <= buf.Length
      ensures Valid() && this.buf == buf && this.limit == limit && out == []
    {
      this.buf, this.limit := buf, limit;
      str, size, out := 0, limit, [];
    }

    method InsertChar(c: char) returns (n: nat)
      requires Valid()
      modifies this, buf
      ensures Valid() && out == old(out) + [c] && n == 1
      ensures forall k :: limit <= k < buf.Length ==> buf[k] == old(buf[k])
    {
      StoredAppend(out, [c]);
      assert Stored([c]) == if Storable(c) then [c] else [];
      if size > 1 {
        if Storable(c) {
          buf[str] := c;
          str := str + 1;
          size := size - 1;
        }
      }
      out := out + [c];
      n := 1;
    }

    method InsertString(s: string) returns (n: nat)
      requires Valid()
      modifies this, buf
      ensures Valid() && out == old(out) + s && n == |s|
      ensures forall k :: limit <= k < buf.Length ==> buf[k] == old(buf[k])
    {
      n := 0;
      while n < |s|
        invariant Valid() && 0 <= n <= |s| && out == old(out) + s[..n]
        invariant forall k :: limit <= k < buf.Length ==> buf[k] == old(buf[k])
      {
        var one := InsertChar(s[n]);
        n := n + one;
      }
    }

    method InsertUint(value: nat, base: nat, digits: string) returns (n: nat)
      requires Valid() && 2 <= base <= |digits| && '\0' !in digits[..base]
      requires value <= UINT_MAX && (base >= 3 || value < 0x8000_0000)
      modifies this, buf
      ensures Valid() && out == old(out) + Numeral(value, base, digits) && n == |Numeral(value, base, digits)|
      ensures forall k :: limit <= k < buf.Length ==> buf[k] == old(buf[k])
    {
      var text := FormatUnsigned(value, base, digits);
      n := InsertString(text);
    }

    method InsertInt(value: int) returns (n: nat)
      requires Valid() && -INT_MAX <= value <= INT_MAX
      modifies this, buf
      ensures Valid() && out == old(out) + IntText(value) && n == |IntText(value)|
      ensures forall k :: limit <= k < buf.Length ==> buf[k] == old(buf[k])
    {
      hide Numeral, Stored, Storable;
      var v := value;
      n := 0;
      if value < 0 {
        v := -value;
        n := InsertChar('-');
      }
      ghost var sign := out;
      var text := FormatUnsigned(v, 10, DIGITS_LOWER);
      var m := InsertString(text);
      n := n + m;
      assert value < 0 ==> sign == old(out) + "-" && old(out) + ("-" + text) == sign + text;
    }

    method Convert(c: char, args: seq<Arg>) returns (n: nat)
      requires Valid() && Accepts(c, args)
      modifies this, buf
      ensures Valid() && out == old(out) + Converted(c, args) && n == |Converted(c, args)|
      ensures forall k :: limit <= k < buf.Length ==> buf[k] == old(buf[k])
    {
      hide Numeral;
      match c {
        case 'd' => n := InsertInt(args[0].i);
        case 'u' => n := InsertUint(args[0].u, 10, DIGITS_LOWER);
        case 'x' => n := InsertUint(args[0].u, 16, DIGITS_LOWER);
        case 'X' => n := InsertUint(args[0].u, 16, DIGITS_UPPER);
        case 's' => n := InsertString(StringText(args[0].s));
        case 'c' => n := InsertChar(args[0].c);
        case _ => n := InsertChar(c);
      }
    }

    /** One character of the format: text, the start of a conversion, or its letter. */
    method Feed(c: char, percent: bool, args: seq<Arg>, ghost fmt: string)
      returns (n: nat, percent': bool, rest: seq<Arg>)
      requires Valid() && fmt != [] && fmt[0] == c && Matches(fmt, percent, args)
      modifies this, buf
      ensures Valid() && Matches(fmt[1..], percent', rest) && |out| == |old(out)| + n
      ensures out + Expanded(fmt[1..], percent', rest) == old(out) + Expanded(fmt, percent, args)
      ensures forall k :: limit <= k < buf.Length ==> buf[k] == old(buf[k])
    {
      hide Matches, Expanded, Converted, Accepts, Consumes, Stored;
      ExpandStep(fmt, percent, args);
      n, percent', rest := 0, false, args;
      if !percent {
        if c == '%' {
          percent' := true;
        } else {
          n := InsertChar(c);
        }
      } else {
        n := Convert(c, args);
        rest := args[Consumes(c)..];
      }
    }
  }

  /** The buffer receives the first `size - 1` storable characters of the output and
      a terminator, and the result is the length of the whole output. */
  method Vsnprintf(buf: array<char>, size: nat, fmt: string, args: seq<Arg>) returns (n: nat)
    requires size <= buf.Length && Matches(fmt, false, args)
    modifies buf
    ensures size == 0 ==> n == 0 && buf[..] == old(buf[..])
    ensures size > 0 ==>
              var text := Stored(Expanded(fmt, false, args));
              var stop := if |text| < size then |text| else size - 1;
              n == |Expanded(fmt, false, args)| && buf[..stop] == text[..stop] && buf[stop] == '\0'
    ensures forall k :: size <= k < buf.Length ==> buf[k] == old(buf[k])
  {
    hide Matches, Expanded, Converted, Accepts, Consumes, Stored;
    if size == 0 {
      return 0;
    }
    assert fmt[0..] == fmt;
    var w := new Writer(buf, size);
    var i, percent, rest := 0, false, args;
    n := 0;
    while i < |fmt|
      invariant 0 <= i <= |fmt| && w.Valid() && w.buf == buf && w.limit == size && fresh(w)
      invariant Matches(fmt[i..], percent, rest)
      invariant w.out + Expanded(fmt[i..], percent, rest) == Expanded(fmt, false, args) && n == |w.out|
      invariant forall k :: size <= k < buf.Length ==> buf[k] == old(buf[k])
    {
      assert fmt[i..][0] == fmt[i] && fmt[i..][1..] == fmt[i + 1..];
      var m;
      m, percent, rest := w.Feed(fmt[i], percent, rest, fmt[i..]);
      n := n + m;
      i := i + 1;
    }
    ExpandStep(fmt[i..], percent, rest);
    assert w.out == Expanded(fmt, false, args);
    buf[w.str] := '\0';
  }
}
