// printnum, the %d conversion and atol.
module Printing {
  import opened Arith

  // ---- digit strings ----

  type Digit = x: nat | x < 16

  // Most significant digit first.
  function Value(s: seq<Digit>, base: nat): nat {
    if s == [] then 0 else Value(s[..|s| - 1], base) * base + s[|s| - 1]
  }

  // A number written without leading zeros, in digits of the base.
  ghost predicate Writes(s: seq<Digit>, n: nat, base: nat) {
    0 < |s| && (s[0] == 0 ==> |s| == 1) && (forall i | 0 <= i < |s| :: s[i] < base) && Value(s, base) == n
  }

  function Digits(n: nat, base: nat): (s: seq<Digit>)
    requires 2 <= base <= 16
    ensures |s| > 0
    decreases n
  {
    if n < base then [n] else Digits(n / base, base) + [n % base]
  }

  lemma {:induction false} DigitsWrite(n: nat, base: nat)
    requires 2 <= base <= 16
    ensures Writes(Digits(n, base), n, base)
    ensures n > 0 ==> Digits(n, base)[0] != 0
    decreases n
  {
    if n < base {
      assert Value([n], base) == Value([n][..0], base) * base + n;
    } else {
      QuotientPositive(n, base);
      DigitsWrite(n / base, base);
      var s := Digits(n / base, base);
      assert (s + [n % base])[..|s|] == s;
      DivMod(n, base);
    }
  }

  lemma QuotientPositive(n: nat, base: nat)
    requires 2 <= base <= n
    ensures 0 < n / base < n
  {
  }

  // No other digit string without leading zeros has this value.
  lemma {:induction false} DigitsUnique(s: seq<Digit>, n: nat, base: nat)
    requires 2 <= base <= 16 && Writes(s, n, base)
    ensures s == Digits(n, base)
    decreases |s|
  {
    var head, d := s[..|s| - 1], s[|s| - 1];
    var h := Value(head, base);
    Split(n, base, h, d);
    if |s| == 1 {
      assert head == [];
    } else {
      assert head[0] == s[0] && forall i | 0 <= i < |head| :: head[i] == s[i];
      LeadingPositive(head, base);
      MulMono(1, h, base);
      DigitsUnique(head, h, base);
      assert s == head + [d];
    }
  }

  lemma Split(n: nat, base: nat, h: nat, d: nat)
    requires d < base && n == h * base + d
    ensures n / base == h && n % base == d
  {
    DivModUnique(n, base, h, d);
  }

  lemma {:induction false} LeadingPositive(s: seq<Digit>, base: nat)
    requires base > 0 && 0 < |s| && s[0] > 0
    ensures Value(s, base) > 0
    decreases |s|
  {
    if |s| > 1 {
      assert s[..|s| - 1][0] == s[0];
      LeadingPositive(s[..|s| - 1], base);
    } else {
      assert s[..0] == [];
    }
  }

  // ---- printnum ----

  // digs[pos] + (digs[pos] >= 10 ? 'a' - 10 : '0')
  function Char(d: Digit): char { if d >= 10 then 'a' + (d - 10) as char else '0' + d as char }

  lemma HexDigits(d: Digit)
    ensures Char(d) == "0123456789abcdef"[d]
  {
  }

  function Chars(s: seq<Digit>): (r: string)
    ensures |r| == |s| && forall i | 0 <= i < |s| :: r[i] == Char(s[i])
  {
    seq(|s|, i requires 0 <= i < |s| => Char(s[i]))
  }

  function Padding(n: int, padc: char): (r: string)
    ensures |r| == (if n > 0 then n else 0) && forall i | 0 <= i < |r| :: r[i] == padc
  {
    if n > 0 then seq(n, _ => padc) else ""
  }

  function Reverse(s: seq<Digit>): (r: seq<Digit>)
    ensures |r| == |s| && forall i | 0 <= i < |s| :: r[i] == s[|s| - 1 - i]
  {
    seq(|s|, i requires 0 <= i < |s| => s[|s| - 1 - i])
  }

  const ULONG_MAX: nat := 0xFFFF_FFFF_FFFF_FFFF
  const DIGS: nat := 64

  // A 64-bit number has at most 64 digits in any base.
  lemma {:induction false} EnoughDigits(n: nat, base: nat, k: nat)
    requires 2 <= base <= 16 && k > 0 && n < Pow2(k)
    ensures |Digits(n, base)| <= k
    decreases k
  {
    if n >= base {
      QuotientPositive(n, base);
      HalfBound(n, base, Pow2(k - 1));
      EnoughDigits(n / base, base, k - 1);
    }
  }

  lemma HalfBound(n: nat, base: nat, half: nat)
    requires 2 <= base <= 16 && n < 2 * half
    ensures n / base < half && (base <= n ==> half > 1)
  {
    assert n / base <= n / 2;
  }

  lemma ReverseNext(s: seq<Digit>, d: Digit)
    ensures Reverse(s + [d]) == [d] + Reverse(s)
  {
  }

  // The digits, last one first.
  method FindDigits(num0: nat, base: nat, digs: array<Digit>) returns (pos: nat)
    requires num0 <= ULONG_MAX && 2 <= base <= 16 && digs.Length == DIGS
    modifies digs
    ensures pos <= DIGS && Digits(num0, base) == Reverse(digs[..pos])
  {
    var num: nat := num0;
    pos := 0;
    ghost var ds := Digits(num0, base);
    FitsDigs(num0, base);
    assert Reverse(digs[..0]) == [];
    while true
      invariant pos < DIGS && ds == Digits(num, base) + Reverse(digs[..pos])
      decreases num
    {
      ghost var before := digs[..pos];
      digs[pos] := num % base;
      pos := pos + 1;
      assert digs[..pos] == before + [num % base];
      ReverseNext(before, num % base);
      if num < base {
        break;
      }
      QuotientPositive(num, base);
      num := num / base;
    }
    SmallDigits(num, base);
  }

  lemma FitsDigs(n: nat, base: nat)
    requires n <= ULONG_MAX && 2 <= base <= 16
    ensures |Digits(n, base)| <= DIGS
  {
    hide Pow2;
    Pow2Wide();
    EnoughDigits(n, base, 64);
  }

  lemma SmallDigits(n: nat, base: nat)
    requires 2 <= base <= 16 && n < base
    ensures Digits(n, base) == [n] && n % base == n
  {
    DivModUnique(n, base, 0, n);
  }

  // The digits out, from the last one found to the first.
  method PutDigits(digs: array<Digit>, pos0: nat) returns (out: string)
    requires pos0 <= digs.Length
    ensures out == Chars(Reverse(digs[..pos0]))
  {
    ghost var ds := Reverse(digs[..pos0]);
    var pos := pos0;
    out := "";
    while pos > 0
      invariant pos <= pos0 && |out| == pos0 - pos && forall i | 0 <= i < |out| :: out[i] == Char(ds[i])
    {
      pos := pos - 1;
      out := out + [Char(digs[pos])];
    }
  }

  // The characters go out padding first.
  method Printnum(num: nat, base: nat, width0: int, padc: char) returns (out: string)
    requires num <= ULONG_MAX && 2 <= base <= 16
    ensures out == Padding(width0 - |Digits(num, base)|, padc) + Chars(Digits(num, base))
  {
    var digs := new Digit[DIGS];
    var pos := FindDigits(num, base, digs);
    var width := width0;
    out := "";
    while width > pos
      invariant out == Padding(width0 - width, padc) && (width0 > pos ==> pos <= width <= width0)
                && (width0 <= pos ==> width == width0)
    {
      out := out + [padc];
      width := width - 1;
    }
    var digits := PutDigits(digs, pos);
    out := out + digits;
  }

  // ---- %ld without a width ----

  const LONG_MAX: int := 0x7FFF_FFFF_FFFF_FFFF

  function Decimal(n: int): string {
    if n < 0 then "-" + Chars(Digits(-n, 10)) else Chars(Digits(n, 10))
  }

  lemma NoPadding(s: string, n: int)
    requires n <= 0
    ensures Padding(n, ' ') + s == s && "" + s == s
  {
  }

  // The least long is negated as an unsigned number.
  method PrintLong(n: int) returns (out: string)
    requires -LONG_MAX - 1 <= n <= LONG_MAX
    ensures out == Decimal(n)
  {
    hide Digits;
    hide Chars;
    out := "";
    var num := n;
    if num < 0 {
      out := out + "-";
      num := -num;
    }
    var digits := Printnum(num, 10, -1, ' ');
    NoPadding(Chars(Digits(num, 10)), -1 - |Digits(num, 10)|);
    out := out + digits;
  }

  // ---- atol ----

  // A 64-bit long.
  function Long(x: int): int { (x + LONG_MAX + 1) % 0x1_0000_0000_0000_0000 - LONG_MAX - 1 }

  function SkipSpaces(str: string): string {
    if str != "" && str[0] == ' ' then SkipSpaces(str[1..]) else str
  }

  function Accumulate(str: string, res: int): int {
    if str == "" then res else Accumulate(str[1..], Long(Long(res * 10) + (str[0] as int - '0' as int)))
  }

  function AtolOf(str: string): int {
    var s := SkipSpaces(str);
    if s != "" && (s[0] == '-' || s[0] == '+') then
      var r := Accumulate(s[1..], 0);
      if s[0] == '-' then Long(-r) else r
    else Accumulate(s, 0)
  }

  method Atol(str: string) returns (r: int)
    ensures r == AtolOf(str)
  {
    var i, res, sign := 0, 0, false;
    assert str[0..] == str;
    while i < |str| && str[i] == ' '
      invariant 0 <= i <= |str| && SkipSpaces(str) == SkipSpaces(str[i..])
    {
      assert str[i..][1..] == str[i + 1..];
      i := i + 1;
    }
    ghost var s := str[i..];
    assert SkipSpaces(str) == s;
    if i < |str| && (str[i] == '-' || str[i] == '+') {
      sign := str[i] == '-';
      assert s[1..] == str[i + 1..];
      i := i + 1;
    }
    ghost var total := Accumulate(str[i..], 0);
    while i < |str|
      invariant 0 <= i <= |str| && total == Accumulate(str[i..], res)
    {
      assert str[i..][1..] == str[i + 1..];
      res := Long(res * 10);
      res := Long(res + (str[i] as int - '0' as int));
      i := i + 1;
    }
    assert str[i..] == "";
    return if sign then Long(-res) else res;
  }

  // Accumulating decimal digits computes their value, as long as it fits.
  lemma LongId(x: int)
    requires -LONG_MAX - 1 <= x <= LONG_MAX
    ensures Long(x) == x
  {
  }

  lemma DecimalChar(d: Digit)
    requires d < 10
    ensures Char(d) as int - '0' as int == d && Char(d) != ' ' && Char(d) != '-' && Char(d) != '+'
  {
  }

  lemma ValueNext(s: seq<Digit>, k: nat)
    requires k < |s|
    ensures Value(s[..k + 1], 10) == Value(s[..k], 10) * 10 + s[k]
  {
    assert s[..k + 1][..k] == s[..k];
  }

  // Every step of the loop wraps, and the whole loop wraps once.
  lemma LongStep(v: int, d: int)
    ensures Long(Long(Long(v) * 10) + d) == Long(v * 10 + d) && Long(-Long(v)) == Long(-v)
  {
    var m := 0x1_0000_0000_0000_0000;
    var k := (v + LONG_MAX + 1) / m;
    assert Long(v) == v - k * m;
    LongPeriod(v * 10, -10 * k);
    var l := (v * 10 + LONG_MAX + 1) / m;
    assert Long(v * 10) == v * 10 - l * m;
    LongPeriod(v * 10 + d, -l);
    LongPeriod(-v, k);
  }

  lemma LongPeriod(x: int, k: int)
    ensures Long(x + k * 0x1_0000_0000_0000_0000) == Long(x)
  {
    var m := 0x1_0000_0000_0000_0000;
    var y := x + LONG_MAX + 1;
    DivModUnique(y + k * m, m, y / m + k, y % m);
  }

  lemma {:induction false} AccumulateDigits(s: seq<Digit>, k: nat)
    requires k <= |s| && (forall i | 0 <= i < |s| :: s[i] < 10)
    ensures Accumulate(Chars(s)[k..], Long(Value(s[..k], 10))) == Long(Value(s, 10))
    decreases |s| - k
  {
    hide Value;
    hide Char;
    hide Long;
    if k == |s| {
      assert s[..k] == s && Chars(s)[k..] == "";
    } else {
      AccumulateDigits(s, k + 1);
      ValueNext(s, k);
      DecimalChar(s[k]);
      LongStep(Value(s[..k], 10), s[k]);
      assert Chars(s)[k..][1..] == Chars(s)[k + 1..];
      assert Chars(s)[k..][0] == Char(s[k]);
    }
  }

  // Printing a long and reading it back gives the same number.
  lemma RoundTrip(n: int)
    requires -LONG_MAX - 1 <= n <= LONG_MAX
    ensures AtolOf(Decimal(n)) == n
  {
    hide Value;
    hide Char;
    hide Digits;
    hide Accumulate;
    hide Long;
    var m: nat := if n < 0 then -n else n;
    var ds := Digits(m, 10);
    DigitsWrite(m, 10);
    AccumulateDigits(ds, 0);
    ValueNone(ds);
    assert Chars(ds)[0..] == Chars(ds);
    DecimalChar(ds[0]);
    LongId(0);
    LongId(n);
    LongStep(m, 0);
    if n < 0 {
      assert Decimal(n)[1..] == Chars(ds);
    }
  }

  function Spaces(n: nat): string { if n == 0 then "" else " " + Spaces(n - 1) }

  // Any decimal digits, after any spaces and one sign or none, are read as
  // their value modulo 2^64.
  lemma AtolReads(n: nat, sign: string, s: seq<Digit>)
    requires (sign == "" || sign == "+" || sign == "-") && forall i | 0 <= i < |s| :: s[i] < 10
    ensures AtolOf(Spaces(n) + (sign + Chars(s))) == Long(if sign == "-" then 0 - Value(s, 10) else Value(s, 10) as int)
  {
    hide Value;
    hide Accumulate;
    hide Long;
    hide SkipSpaces;
    hide Chars;
    var c := Chars(s);
    SpacesSkipped(n, sign + c);
    DigitsFirst(s);
    NoSpaces(sign + c);
    assert sign != "" ==> (sign + c)[1..] == c;
    assert sign + c == if sign == "" then c else sign + c;
    DigitsRead(s);
    LongStep(Value(s, 10), 0);
  }

  lemma DigitsFirst(s: seq<Digit>)
    requires forall i | 0 <= i < |s| :: s[i] < 10
    ensures s != [] ==> var c := Chars(s)[0]; c != ' ' && c != '-' && c != '+'
    ensures s == [] ==> Chars(s) == ""
  {
    if s != [] {
      DecimalChar(s[0]);
    }
  }

  lemma NoSpaces(str: string)
    requires str != "" ==> str[0] != ' '
    ensures SkipSpaces(str) == str
  {
  }

  lemma DigitsRead(s: seq<Digit>)
    requires forall i | 0 <= i < |s| :: s[i] < 10
    ensures Accumulate(Chars(s), 0) == Long(Value(s, 10))
  {
    hide Value;
    hide Accumulate;
    hide Long;
    ValueNone(s);
    LongId(0);
    AccumulateDigits(s, 0);
    assert Chars(s)[0..] == Chars(s);
  }

  lemma {:induction false} SpacesSkipped(n: nat, str: string)
    ensures SkipSpaces(Spaces(n) + str) == SkipSpaces(str)
  {
    if n > 0 {
      SpacesSkipped(n - 1, str);
      assert (Spaces(n) + str)[1..] == Spaces(n - 1) + str;
    } else {
      assert Spaces(0) + str == str;
    }
  }

  lemma ValueNone(s: seq<Digit>)
    ensures Value(s[..0], 10) == 0
  {
  }
}
