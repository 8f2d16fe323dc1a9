/** Line-structured text: decimal numbers and fields separated by newlines. */
module Text {
  import opened Prelude

  function Digit(n: nat): char
    requires n < 10
  {
    "0123456789"[n]
  }

  function DecimalNat(n: nat): (s: string)
    ensures s != ""
  {
    if n < 10 then [Digit(n)] else DecimalNat(n / 10) + [Digit(n % 10)]
  }

  function Decimal(n: int): string {
    if n < 0 then "-" + DecimalNat(-n) else DecimalNat(n)
  }

  predicate OneLine(s: string) {
    '\n' !in s
  }

  function IsDigit(c: char): bool {
    '0' <= c <= '9'
  }

  lemma DigitInjective(m: nat, n: nat)
    requires m < 10 && n < 10
    ensures Digit(m) == Digit(n) ==> m == n
    ensures IsDigit(Digit(m))
  {
  }

  lemma {:induction false} DecimalNatDigits(n: nat)
    ensures forall c | c in DecimalNat(n) :: IsDigit(c)
  {
    if n < 10 {
      DigitInjective(n, n);
    } else {
      DecimalNatDigits(n / 10);
      DigitInjective(n % 10, n % 10);
    }
  }

  lemma DecimalOneLine(n: int)
    ensures OneLine(Decimal(n))
  {
    DecimalNatDigits(if n < 0 then -n else n);
    hide DecimalNat;
  }

  lemma {:induction false} DecimalNatInjective(m: nat, n: nat)
    requires DecimalNat(m) == DecimalNat(n)
    ensures m == n
  {
    var s := DecimalNat(m);
    if m < 10 && n < 10 {
      DigitInjective(m, n);
    } else if m >= 10 && n >= 10 {
      LastOf(DecimalNat(m / 10), Digit(m % 10), DecimalNat(n / 10), Digit(n % 10));
      DigitInjective(m % 10, n % 10);
      DecimalNatInjective(m / 10, n / 10);
    }
  }

  lemma LastOf(a: string, x: char, b: string, y: char)
    requires a + [x] == b + [y]
    ensures a == b && x == y
  {
    assert (a + [x])[..|a|] == a && (b + [y])[..|b|] == b;
    assert (a + [x])[|a|] == x && (b + [y])[|b|] == y;
  }

  lemma DecimalSign(n: int)
    ensures Decimal(n) != "" && (Decimal(n)[0] == '-' <==> n < 0)
  {
    var digits := DecimalNat(if n < 0 then -n else n);
    DecimalNatDigits(if n < 0 then -n else n);
    assert digits[0] in digits;
  }

  lemma DecimalInjective(m: int, n: int)
    requires Decimal(m) == Decimal(n)
    ensures m == n
  {
    hide DecimalNat;
    DecimalSign(m);
    DecimalSign(n);
    if m < 0 {
      assert Decimal(m)[1..] == DecimalNat(-m) && Decimal(n)[1..] == DecimalNat(-n);
      DecimalNatInjective(-m, -n);
    } else {
      DecimalNatInjective(m, n);
    }
  }

  function FirstBreak(s: string): nat {
    if s == "" || s[0] == '\n' then 0 else 1 + FirstBreak(s[1..])
  }

  function LastBreak(s: string): int {
    if s == "" then -1
    else if s[|s| - 1] == '\n' then |s| - 1
    else LastBreak(s[..|s| - 1])
  }

  lemma {:induction false} FirstBreakAfter(a: string, rest: string)
    requires OneLine(a)
    ensures FirstBreak(a + "\n" + rest) == |a|
  {
    var s := a + "\n" + rest;
    if a != "" {
      assert s[0] == a[0] && s[1..] == a[1..] + "\n" + rest;
      FirstBreakAfter(a[1..], rest);
    }
  }

  lemma {:induction false} LastBreakBefore(rest: string, a: string)
    requires OneLine(a)
    ensures LastBreak(rest + "\n" + a) == |rest|
  {
    var s := rest + "\n" + a;
    if a == "" {
      assert s[|s| - 1] == '\n';
    } else {
      assert s[|s| - 1] == a[|a| - 1] && s[..|s| - 1] == rest + "\n" + a[..|a| - 1];
      LastBreakBefore(rest, a[..|a| - 1]);
    }
  }

  /** A first line can be split off in one way only. */
  lemma FirstLine(a: string, rest: string, b: string, other: string)
    requires OneLine(a) && OneLine(b) && a + "\n" + rest == b + "\n" + other
    ensures a == b && rest == other
  {
    FirstBreakAfter(a, rest);
    FirstBreakAfter(b, other);
    var s := a + "\n" + rest;
    assert s[..|a|] == a && s[..|b|] == b;
    assert s[|a| + 1..] == rest && s[|b| + 1..] == other;
  }

  /** A last line can be split off in one way only, whatever comes before it. */
  lemma LastLine(rest: string, a: string, other: string, b: string)
    requires OneLine(a) && OneLine(b) && rest + "\n" + a == other + "\n" + b
    ensures a == b && rest == other
  {
    LastBreakBefore(rest, a);
    LastBreakBefore(other, b);
    var s := rest + "\n" + a;
    assert s[..|rest|] == rest && s[..|other|] == other;
    assert s[|rest| + 1..] == a && s[|other| + 1..] == b;
  }

  function Breaks(s: string): nat {
    if s == "" then 0 else Breaks(s[1..]) + if s[0] == '\n' then 1 else 0
  }

  lemma {:induction false} BreaksConcat(a: string, b: string)
    ensures Breaks(a + b) == Breaks(a) + Breaks(b)
  {
    if a == "" {
      assert a + b == b;
    } else {
      assert (a + b)[1..] == a[1..] + b;
      BreaksConcat(a[1..], b);
    }
  }

  lemma {:induction false} NoBreaks(s: string)
    ensures Breaks(s) == 0 <==> OneLine(s)
  {
    if s != "" {
      NoBreaks(s[1..]);
      assert s == [s[0]] + s[1..];
    }
  }

  lemma BreaksJoined(a: string, b: string)
    ensures Breaks(a + "\n" + b) == Breaks(a) + 1 + Breaks(b)
  {
    BreaksConcat(a + "\n", b);
    BreaksConcat(a, "\n");
    assert Breaks("\n") == 1;
  }

  /** A part with a given number of newlines can be split off in one way only. */
  lemma LinesSplit(a: string, rest: string, b: string, other: string)
    requires a + "\n" + rest == b + "\n" + other && Breaks(a) == Breaks(b)
    ensures a == b && rest == other
  {
    if |a| < |b| {
      LongerHasMore(a, rest, b, other);
    } else if |b| < |a| {
      LongerHasMore(b, other, a, rest);
    } else {
      var s := a + "\n" + rest;
      assert s[..|a|] == a && s[..|b|] == b && s[|a| + 1..] == rest && s[|b| + 1..] == other;
    }
  }

  lemma LongerHasMore(a: string, rest: string, b: string, other: string)
    requires a + "\n" + rest == b + "\n" + other && |a| < |b|
    ensures Breaks(a) < Breaks(b)
  {
    var s := a + "\n" + rest;
    assert s[..|b|] == b && s[..|a|] == a && s[|a|] == '\n';
    assert b == a + "\n" + b[|a| + 1..];
    BreaksJoined(a, b[|a| + 1..]);
  }

  lemma SplitAtBreak(s: string) returns (a: string, b: string)
    requires !OneLine(s)
    ensures s == a + "\n" + b
  {
    var i :| 0 <= i < |s| && s[i] == '\n';
    a, b := s[..i], s[i + 1..];
  }
}
