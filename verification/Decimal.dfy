/** Decimal text: what `%d` prints for a number that is not negative, and what `atoi` reads. */
module Decimal {

  predicate IsDigit(c: char) { '0' <= c <= '9' }

  predicate AllDigits(s: string) { forall i :: 0 <= i < |s| ==> IsDigit(s[i]) }

  function DigitChar(d: nat): (c: char)
    requires d < 10
    ensures IsDigit(c)
  {
    '0' + d as char
  }

  function DigitValue(c: char): (d: nat)
    requires IsDigit(c)
    ensures d < 10
  {
    c as nat - '0' as nat
  }

  function Print(n: nat): (s: string)
    ensures |s| >= 1 && AllDigits(s)
  {
    if n < 10 then [DigitChar(n)] else Print(n / 10) + [DigitChar(n % 10)]
  }

  /** The number a digit string denotes; leading zeros do not matter. */
  function Value(s: string): nat
    requires AllDigits(s)
  {
    if s == [] then 0 else 10 * Value(s[..|s| - 1]) + DigitValue(s[|s| - 1])
  }

  /** The longest digit prefix. */
  function DigitRun(s: string): (n: nat)
    ensures n <= |s| && AllDigits(s[..n]) && (n < |s| ==> !IsDigit(s[n]))
  {
    if s == [] || !IsDigit(s[0]) then 0
    else
      var m := DigitRun(s[1..]);
      assert s[..m + 1] == [s[0]] + s[1..][..m];
      m + 1
  }

  const UINT32 := 0x1_0000_0000
  const INT_MAX := 0x7fff_ffff
  const LONG_MAX := 0x7fff_ffff_ffff_ffff

  /** `isspace`. */
  predicate IsBlank(c: char) { c == ' ' || 9 <= c as int <= 13 }

  function BlankRun(s: string): (n: nat)
    ensures n <= |s|
  {
    if s == [] || !IsBlank(s[0]) then 0 else 1 + BlankRun(s[1..])
  }

  function LeadingNumber(s: string): nat { Value(s[..DigitRun(s)]) }

  /** `strtol` in base 10: blanks, a sign, digits up to the first other byte; a number out of the
      range of `long` becomes the end of the range. */
  function Strtol(s: string): int
  {
    var t := s[BlankRun(s)..];
    if t != [] && t[0] == '-' then
      var v: int := LeadingNumber(t[1..]);
      if v > LONG_MAX then -LONG_MAX - 1 else -v
    else
      var v := LeadingNumber(if t != [] && t[0] == '+' then t[1..] else t);
      if v > LONG_MAX then LONG_MAX else v
  }

  /** The `int` whose 32 bits are the low bits of `x`. */
  function ToInt(x: int): int
  {
    var y := x % UINT32;
    if y <= INT_MAX then y else y - UINT32
  }

  /** `atoi`: the low 32 bits of what `strtol` reads. */
  function Atoi(s: string): int { ToInt(Strtol(s)) }

  lemma {:induction false} ValueOfPrint(n: nat)
    ensures Value(Print(n)) == n
  {
    if n >= 10 {
      ValueOfPrint(n / 10);
      assert Print(n)[..|Print(n)| - 1] == Print(n / 10);
    } else {
      assert Print(n)[..0] == [];
    }
  }

  lemma PrintIsInjective(m: nat, n: nat)
    requires Print(m) == Print(n)
    ensures m == n
  {
    ValueOfPrint(m);
    ValueOfPrint(n);
  }

  lemma {:induction false} DigitRunOf(d: string, rest: string)
    requires AllDigits(d) && (rest == [] || !IsDigit(rest[0]))
    ensures DigitRun(d + rest) == |d|
    decreases |d|
  {
    if d == [] {
      assert d + rest == rest;
    } else {
      DigitRunOf(d[1..], rest);
      assert (d + rest)[1..] == d[1..] + rest;
    }
  }

  lemma {:induction false} BlankRunOf(blanks: string, rest: string)
    requires (forall i :: 0 <= i < |blanks| ==> IsBlank(blanks[i])) && (rest == [] || !IsBlank(rest[0]))
    ensures BlankRun(blanks + rest) == |blanks|
    decreases |blanks|
  {
    if blanks == [] {
      assert blanks + rest == rest;
    } else {
      BlankRunOf(blanks[1..], rest);
      assert (blanks + rest)[1..] == blanks[1..] + rest;
    }
  }

  lemma LeadingPrint(n: nat, rest: string)
    requires rest == [] || !IsDigit(rest[0])
    ensures LeadingNumber(Print(n) + rest) == n && IsDigit((Print(n) + rest)[0])
  {
    DigitRunOf(Print(n), rest);
    assert (Print(n) + rest)[..|Print(n)|] == Print(n);
    ValueOfPrint(n);
  }

  /** The digits are the ten characters they are written with, in order, and a number is written
      with its tenths before its last digit. */
  lemma DigitsAre(n: nat, d: nat)
    requires d < 10
    ensures Print(d) == ["0123456789"[d]] && DigitValue("0123456789"[d]) == d
    ensures n > 0 ==> Print(10 * n + d) == Print(n) + ["0123456789"[d]]
  {
    assert (10 * n + d) / 10 == n && (10 * n + d) % 10 == d;
  }

  /** Blanks are the six characters of `isspace`. */
  lemma BlanksAre(c: char)
    ensures IsBlank(c) <==> c in " \t\n\r" || c as int == 11 || c as int == 12
  {
    if c as int == 9 { assert c == '\t'; }
    if c as int == 10 { assert c == '\n'; }
    if c as int == 13 { assert c == '\r'; }
  }

  /** What `strtol` reads: a printed number with any blanks and at most one sign before it, whatever
      non-digit text follows, brought into the range of `long`. */
  lemma StrtolReads(blanks: string, sign: string, n: nat, rest: string)
    requires forall i :: 0 <= i < |blanks| ==> IsBlank(blanks[i])
    requires sign == "" || sign == "+" || sign == "-"
    requires rest == [] || !IsDigit(rest[0])
    ensures var r := Strtol(blanks + (sign + (Print(n) + rest)));
            && (n <= LONG_MAX ==> r == (if sign == "-" then -1 else 1) * n)
            && (n > LONG_MAX ==> r == if sign == "-" then -LONG_MAX - 1 else LONG_MAX)
  {
    hide LeadingNumber, Print;
    var t := Print(n) + rest;
    LeadingPrint(n, rest);
    var u := sign + t;
    assert u[|sign|..] == t;
    BlankRunOf(blanks, u);
    assert (blanks + u)[|blanks|..] == u;
  }

  /** What `atoi` makes of it: the number of type `int` that agrees with it modulo 2^32; past the
      range of `long`, -1 or, after a minus sign, 0. */
  lemma AtoiReads(blanks: string, sign: string, n: nat, rest: string)
    requires forall i :: 0 <= i < |blanks| ==> IsBlank(blanks[i])
    requires sign == "" || sign == "+" || sign == "-"
    requires rest == [] || !IsDigit(rest[0])
    ensures var r, v := Atoi(blanks + (sign + (Print(n) + rest))), (if sign == "-" then -1 else 1) * n;
            && -0x8000_0000 <= r <= 0x7fff_ffff
            && (n <= 0x7fff_ffff_ffff_ffff ==> r % 0x1_0000_0000 == v % 0x1_0000_0000)
            && (-0x8000_0000 <= v <= 0x7fff_ffff ==> r == v)
            && (n > 0x7fff_ffff_ffff_ffff ==> r == if sign == "-" then 0 else -1)
  {
    hide Strtol, Print;
    StrtolReads(blanks, sign, n, rest);
    ToIntIs(Strtol(blanks + (sign + (Print(n) + rest))));
  }

  lemma ToIntIs(x: int)
    ensures -INT_MAX - 1 <= ToInt(x) <= INT_MAX && ToInt(x) % UINT32 == x % UINT32
    ensures -INT_MAX - 1 <= x <= INT_MAX ==> ToInt(x) == x
  {
  }

  /** `atoi` reads back what `%d` printed. */
  lemma AtoiOfPrint(n: nat, rest: string)
    requires n <= INT_MAX && (rest == [] || !IsDigit(rest[0]))
    ensures Atoi(Print(n) + rest) == n
  {
    hide Atoi, Print;
    AtoiReads("", "", n, rest);
    assert "" + ("" + (Print(n) + rest)) == Print(n) + rest;
  }

  /** `%d` of an unsigned 32-bit number. */
  function PrintInt(x: nat): string
  {
    var y := x % UINT32;
    if y <= INT_MAX then Print(y) else "-" + Print(UINT32 - y)
  }

  /** Every unsigned 32-bit number survives `%d` and `atoi`, whatever non-digit text follows. */
  lemma AtoiOfPrintInt(x: nat, rest: string)
    requires x < UINT32 && (rest == [] || !IsDigit(rest[0]))
    ensures Atoi(PrintInt(x) + rest) % UINT32 == x
  {
    hide Atoi, Print;
    if x <= INT_MAX {
      AtoiOfPrint(x, rest);
    } else {
      var d := Print(UINT32 - x);
      AtoiReads("", "-", UINT32 - x, rest);
      assert "" + ("-" + (d + rest)) == "-" + d + rest;
    }
  }

  function Pow10(k: nat): nat { if k == 0 then 1 else 10 * Pow10(k - 1) }

  lemma {:induction false} PrintLength(n: nat, k: nat)
    requires k >= 1 && n < Pow10(k)
    ensures |Print(n)| <= k
    decreases k
  {
    if k == 1 {
      assert Pow10(1) == 10 * Pow10(0);
    } else if n >= 10 {
      PrintLength(n / 10, k - 1);
    }
  }
}
