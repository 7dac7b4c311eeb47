/** Reading printed integers back. */
module NtoaParse {
  import opened Bytes
  import opened Ntoa

  function DigitValue(c: char): Option<nat> {
    if '0' <= c <= '9' then Some((c - '0') as nat)
    else if 'a' <= c <= 'f' then Some((c - 'a') as nat + 10)
    else if 'A' <= c <= 'F' then Some((c - 'A') as nat + 10)
    else None
  }

  predicate IsDigit(c: char, base: nat) {
    DigitValue(c).Some? && DigitValue(c).value < base
  }

  predicate AllDigits(s: string, base: nat) {
    forall i :: 0 <= i < |s| ==> IsDigit(s[i], base)
  }

  /** One more digit. */
  function Next(base: nat, x: nat, d: nat): nat {
    base * x + d
  }

  /** The number a string of digits stands for. */
  function Value(s: string, base: nat): nat
    requires AllDigits(s, base)
  {
    if s == "" then 0
    else
      assert IsDigit(s[|s| - 1], base);
      Next(base, Value(s[..|s| - 1], base), DigitValue(s[|s| - 1]).value)
  }

  /** How many digits s begins with. */
  function Run(s: string, base: nat): (n: nat)
    ensures n <= |s| && AllDigits(s[..n], base) && (n < |s| ==> !IsDigit(s[n], base))
  {
    if s == "" || !IsDigit(s[0], base) then 0
    else
      var n := 1 + Run(s[1..], base);
      assert forall i :: 0 < i < n ==> s[..n][i] == s[1..][..n - 1][i - 1];
      n
  }

  function SkipSpaces(s: string): string {
    if s != "" && s[0] == ' ' then SkipSpaces(s[1..]) else s
  }

  predicate Blank(s: string) {
    forall i :: 0 <= i < |s| ==> s[i] == ' '
  }

  /** An integer between spaces: its sign, and its value in the given base. */
  function ParseInt(s: string, base: nat): Option<(bool, nat)> {
    var t := SkipSpaces(s);
    var negative := t != "" && t[0] == '-';
    var u := if t != "" && (t[0] == '-' || t[0] == '+') then t[1..] else t;
    var n := Run(u, base);
    if n == 0 || !Blank(u[n..]) then None else Some((negative, Value(u[..n], base)))
  }

  // ---- digits ----

  lemma DigitCharBack(d: nat, upper: bool)
    requires d < 16
    ensures DigitValue(DigitChar(d, upper)) == Some(d) && DigitChar(d, upper) !in {' ', '-', '+'}
  {}

  lemma {:induction false} ValueOfDigits(v: nat, base: nat, upper: bool)
    requires 2 <= base <= 16
    ensures AllDigits(Digits(v, base, upper), base) && Value(Digits(v, base, upper), base) == v
    decreases v
  {
    hide Next, Value, DigitChar, DigitValue, AllDigits;
    var q, r := Quotient(v, base), Remainder(v, base);
    Recompose(v, base);
    DigitCharBack(r, upper);
    if v < base {
      ValueOfOne(DigitChar(v, upper), base);
    } else {
      ValueOfDigits(q, base, upper);
      ValueOfMore(Digits(q, base, upper), DigitChar(r, upper), base);
    }
  }

  lemma Recompose(v: nat, base: nat)
    requires 2 <= base <= 16
    ensures v == Next(base, Quotient(v, base), Remainder(v, base))
  {}

  lemma ValueOfOne(c: char, base: nat)
    requires IsDigit(c, base)
    ensures AllDigits([c], base) && Value([c], base) == DigitValue(c).value
  {
    assert [c][..0] == "";
    assert Value("", base) == 0 && Next(base, 0, DigitValue(c).value) == DigitValue(c).value;
  }

  lemma ValueOfMore(s: string, c: char, base: nat)
    requires AllDigits(s, base) && IsDigit(c, base)
    ensures AllDigits(s + [c], base) && Value(s + [c], base) == Next(base, Value(s, base), DigitValue(c).value)
  {
    assert (s + [c])[..|s|] == s;
  }

  /** Leading zeros do not change the value. */
  lemma {:induction false} ValueOfPadded(n: nat, d: string, base: nat)
    requires AllDigits(d, base) && base >= 2
    ensures AllDigits(Repeat('0', n) + d, base) && Value(Repeat('0', n) + d, base) == Value(d, base)
  {
    hide Next, Repeat;
    var z := Repeat('0', n);
    if d != "" {
      var front, c := d[..|d| - 1], d[|d| - 1];
      assert IsDigit(c, base);
      ValueOfPadded(n, front, base);
      ValueOfMore(z + front, c, base);
      assert z + d == z + front + [c];
    } else if n > 0 {
      ValueOfPadded(n - 1, d, base);
      ValueOfMore(Repeat('0', n - 1) + d, '0', base);
      assert z + d == Repeat('0', n - 1) + d + ['0'];
      assert Value(d, base) == 0;
      NextOfZero(base);
    } else {
      assert z + d == d;
    }
  }

  lemma NextOfZero(base: nat)
    ensures Next(base, 0, 0) == 0
  {}

  // ---- the parts of a text ----

  lemma {:induction false} SkipsSpaces(n: nat, t: string)
    requires t != "" && t[0] != ' '
    ensures SkipSpaces(Repeat(' ', n) + t) == t
  {
    var s := Repeat(' ', n) + t;
    if n == 0 {
      assert s == t;
    } else {
      SkipsSpaces(n - 1, t);
      assert s[1..] == Repeat(' ', n - 1) + t;
    }
  }

  lemma {:induction false} RunOfDigits(d: string, e: string, base: nat)
    requires AllDigits(d, base) && (e != "" ==> !IsDigit(e[0], base))
    ensures Run(d + e, base) == |d|
  {
    if d == "" {
      assert d + e == e;
    } else {
      assert IsDigit(d[0], base);
      RunOfDigits(d[1..], e, base);
      assert (d + e)[1..] == d[1..] + e;
    }
  }

  lemma FirstDigit(d: string, base: nat)
    requires d != "" && AllDigits(d, base)
    ensures IsDigit(d[0], base) && d[0] !in {' ', '-', '+'}
  {}

  lemma SpaceIsNoDigit(base: nat)
    ensures !IsDigit(' ', base)
  {}

  /** Sign, digits and trailing spaces. */
  lemma ParsesSigned(sign: string, d: string, n: nat, base: nat)
    requires sign in {"", "-", "+"} && d != "" && AllDigits(d, base)
    ensures ParseInt(sign + d + Repeat(' ', n), base) == Some((sign == "-", Value(d, base)))
  {
    hide Value, Repeat, Run, AllDigits, IsDigit;
    var e := Repeat(' ', n);
    var t := sign + d + e;
    FirstDigit(d, base);
    SpaceIsNoDigit(base);
    RunOfDigits(d, e, base);
    var u := d + e;
    assert u[..|d|] == d && u[|d|..] == e;
    if sign == "" {
      assert t == u;
    } else {
      assert t[0] == sign[0] && t[1..] == u;
    }
    assert t != "" && t[0] != ' ';
    assert SkipSpaces(t) == t;
  }

  lemma ParsesAfterSpaces(n: nat, t: string, base: nat)
    requires t != "" && t[0] != ' '
    ensures ParseInt(Repeat(' ', n) + t, base) == ParseInt(t, base)
  {
    SkipsSpaces(n, t);
    assert SkipSpaces(t) == t;
  }

  /** Spaces, a sign, digits, spaces. */
  lemma ParsesText(lead: nat, s: string, d: string, trail: nat, base: nat)
    requires s in {"", "-", "+", " "} && d != "" && AllDigits(d, base)
    ensures ParseInt(Repeat(' ', lead) + s + (d + Repeat(' ', trail)), base) == Some((s == "-", Value(d, base)))
  {
    hide ParseInt, Value;
    assert IsDigit(d[0], base);
    var sign, spaces: nat := if s == " " then "" else s, if s == " " then lead + 1 else lead;
    var t := sign + d + Repeat(' ', trail);
    ParsesSigned(sign, d, trail, base);
    assert t != "" && t[0] != ' ';
    ParsesAfterSpaces(spaces, t, base);
    MoveSpace(lead, s, d + Repeat(' ', trail));
    assert t == sign + (d + Repeat(' ', trail));
  }

  lemma MoveSpace(lead: nat, s: string, t: string)
    ensures if s == " " then Repeat(' ', lead) + s + t == Repeat(' ', lead + 1) + ("" + t)
            else Repeat(' ', lead) + s + t == Repeat(' ', lead) + (s + t)
  {
    if s == " " {
      assert Repeat(' ', lead) + s == Repeat(' ', lead + 1);
    }
  }

  /** Printing and reading back gives the number with its sign, whatever the padding. */
  lemma PrintedIsRead(v: nat, negative: bool, base: nat, width: nat, flags: Flags)
    requires 2 <= base <= 16
    ensures ParseInt(Format(v, negative, base, width, flags), base) == Some((negative, v))
  {
    hide Digits, Value, ParseInt, AllDigits, Repeat, Layout;
    var s, d := Sign(negative, flags), Digits(v, base, flags.uppercase);
    ValueOfDigits(v, base, flags.uppercase);
    var pad: nat := if width < |s| + |d| then 0 else width - |s| - |d|;
    ValueOfPadded(pad, d, base);
    TextIs(s, d, pad, width, flags);
    if flags.left {
      ParsesText(0, s, d, pad, base);
    } else if flags.zeropad {
      ParsesText(0, s, Repeat('0', pad) + d, 0, base);
    } else {
      ParsesText(pad, s, d, 0, base);
    }
  }

  lemma SameRepeat(c: char, n: int, m: nat)
    requires m == if n < 0 then 0 else n
    ensures Repeat(c, n) == Repeat(c, m)
  {}

  lemma TextIs(s: string, d: string, pad: nat, width: nat, flags: Flags)
    requires pad == if width < |s| + |d| then 0 else width - |s| - |d|
    ensures Layout(s, d, width, flags)
            == if flags.left then Repeat(' ', 0) + s + (d + Repeat(' ', pad))
               else if flags.zeropad then Repeat(' ', 0) + s + (Repeat('0', pad) + d + Repeat(' ', 0))
               else Repeat(' ', pad) + s + (d + Repeat(' ', 0))
  {
    SameRepeat(' ', width - |s| - |d|, pad);
    SameRepeat('0', width - |s| - |d|, pad);
  }

  // ---- _atoi ----

  /** _atoi from position `at`, in 32-bit arithmetic; a C string ends where s does. */
  method Atoi(s: string, at: nat) returns (i: nat, next: nat)
    requires at <= |s|
    ensures next == at + Run(s[at..], 10)
    ensures AllDigits(s[at..next], 10) && i == Value(s[at..next], 10) % TWO_32
  {
    hide Value;
    i, next := 0, at;
    NothingRead(s[at..at]);
    while next < |s| && '0' <= s[next] <= '9'
      invariant at <= next <= |s| && AllDigits(s[at..next], 10) && i == Value(s[at..next], 10) % TWO_32
    {
      var d := (s[next] - '0') as nat;
      assert s[at..next + 1] == s[at..next] + [s[next]];
      ValueOfMore(s[at..next], s[next], 10);
      NextWraps(Value(s[at..next], 10), d);
      i := (i * 10 + d) % TWO_32;
      next := next + 1;
    }
    assert s[at..] == s[at..next] + s[next..];
    RunOfDigits(s[at..next], s[next..], 10);
  }

  lemma NothingRead(s: string)
    requires s == ""
    ensures Value(s, 10) == 0
  {}

  lemma NextWraps(a: nat, d: nat)
    ensures (a % TWO_32 * 10 + d) % TWO_32 == Next(10, a, d) % TWO_32
  {
    var q, r := a / TWO_32, a % TWO_32;
    assert Next(10, a, d) == TWO_32 * (10 * q) + (r * 10 + d);
    AddMultiple(r * 10 + d, 10 * q);
  }

  lemma AddMultiple(x: nat, k: nat)
    ensures (TWO_32 * k + x) % TWO_32 == x % TWO_32
  {
    var q := x / TWO_32;
    assert TWO_32 * k + x == TWO_32 * (k + q) + x % TWO_32;
  }

  const NO_FLAGS := Flags(false, false, false, false, false)

  /** _atoi reads back what was printed in base 10 without padding, followed by anything that
      is not a digit. */
  lemma AtoiReadsBack(v: nat, rest: string)
    requires v < TWO_32 && (rest != "" ==> !IsDigit(rest[0], 10))
    ensures var text := Format(v, false, 10, 0, NO_FLAGS);
            && Run(text + rest, 10) == |text| && AllDigits(text, 10) && Value(text, 10) % TWO_32 == v
  {
    hide Value, Digits;
    ValueOfDigits(v, 10, false);
    var text := Format(v, false, 10, 0, NO_FLAGS);
    assert text == Digits(v, 10, false);
    RunOfDigits(text, rest, 10);
  }
}
