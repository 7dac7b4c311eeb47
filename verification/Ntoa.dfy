/** Integer output of printf.c, without '#' and explicit precision, and _atoi. */
module Ntoa {
  import opened Bytes

  const BUFFER_SIZE: nat := 32 // PRINTF_NTOA_BUFFER_SIZE

  datatype Flags = Flags(zeropad: bool, left: bool, plus: bool, space: bool, uppercase: bool)

  // ---- what is to be printed ----

  function DigitChar(d: nat, upper: bool): (c: char)
    requires d < 16
  {
    if d < 10 then '0' + d as char else (if upper then 'A' else 'a') + (d - 10) as char
  }

  lemma DigitCharIs(d: nat, upper: bool)
    requires d < 16
    ensures DigitChar(d, upper) == (if upper then "0123456789ABCDEF" else "0123456789abcdef")[d]
  {}

  function Digits(v: nat, base: nat, upper: bool): (s: string)
    requires 2 <= base <= 16
    ensures s != []
    decreases v
  {
    if v < base then [DigitChar(v, upper)]
    else Digits(Quotient(v, base), base, upper) + [DigitChar(Remainder(v, base), upper)]
  }

  function Remainder(v: nat, base: nat): (r: nat)
    requires base >= 2
    ensures r < base && (v < base ==> r == v)
  {
    v % base
  }

  function Quotient(v: nat, base: nat): (q: nat)
    requires base >= 2
    ensures v >= base ==> 0 < q < v
    ensures v < base ==> q == 0
  {
    QuotientBounds(v, base);
    v / base
  }

  lemma QuotientBounds(v: nat, base: nat)
    requires base >= 2
    ensures v >= base ==> 0 < v / base < v
    ensures v < base ==> v / base == 0
  {
    DivisionBounds(v, base, v / base, v % base);
  }

  lemma DivisionBounds(v: nat, base: nat, q: nat, r: nat)
    requires base >= 2 && v == base * q + r && r < base
    ensures v >= base ==> 0 < q < v
    ensures v < base ==> q == 0
  {
    if q > 0 {
      ProductMonotone(2, base, q, q);
      ProductMonotone(base, base, 1, q);
    }
  }

  function Sign(negative: bool, flags: Flags): string {
    if negative then "-" else if flags.plus then "+" else if flags.space then " " else ""
  }

  function Repeat(c: char, n: int): (s: string)
    ensures |s| == (if n < 0 then 0 else n) && forall i :: 0 <= i < |s| ==> s[i] == c
  {
    if n <= 0 then [] else seq(n, _ => c)
  }

  /** What C's printf calls for: the sign and the digits, brought to the width by spaces on the
      left or on the right, or by zeros between. */
  function Format(v: nat, negative: bool, base: nat, width: nat, flags: Flags): string
    requires 2 <= base <= 16
  {
    Layout(Sign(negative, flags), Digits(v, base, flags.uppercase), width, flags)
  }

  function Layout(s: string, d: string, width: nat, flags: Flags): string {
    var missing := width - |s| - |d|;
    if flags.left then s + d + Repeat(' ', missing)
    else if flags.zeropad then s + Repeat('0', missing) + d
    else Repeat(' ', missing) + s + d
  }

  /** The text fits the buffer of _ntoa_long: sign and digits, and the zeros if there are any. */
  predicate Fits(v: nat, negative: bool, base: nat, width: nat, flags: Flags)
    requires 2 <= base <= 16
  {
    && |Sign(negative, flags)| + |Digits(v, base, flags.uppercase)| <= BUFFER_SIZE
    && (flags.zeropad && !flags.left ==> width <= BUFFER_SIZE)
  }

  /** The texts that come out as they should: those that fit, and one more kind. Where only the sign
      does not fit, and it is a space in front of 32 digits, the padding makes up for it. */
  predicate Prints(v: nat, negative: bool, base: nat, width: nat, flags: Flags)
    requires 2 <= base <= 16
  {
    || Fits(v, negative, base, width, flags)
    || (Sign(negative, flags) == " " && |Digits(v, base, flags.uppercase)| == BUFFER_SIZE
        && !flags.left && !flags.zeropad && width > BUFFER_SIZE)
  }

  /** The length is exactly the width, or more if sign and digits need it. */
  lemma FormatLength(v: nat, negative: bool, base: nat, width: nat, flags: Flags)
    requires 2 <= base <= 16
    ensures var n := |Sign(negative, flags)| + |Digits(v, base, flags.uppercase)|;
            |Format(v, negative, base, width, flags)| == if n < width then width else n
  {}

  // ---- when it fits ----

  function Pow(base: nat, n: nat): nat {
    if n == 0 then 1 else base * Pow(base, n - 1)
  }

  /** n digits are enough exactly for the numbers below base to the n. */
  lemma {:induction false} DigitCount(v: nat, base: nat, upper: bool, n: nat)
    requires 2 <= base <= 16 && n > 0
    ensures |Digits(v, base, upper)| <= n <==> v < Pow(base, n)
    decreases n
  {
    if n == 1 {
      assert Pow(base, 1) == base * Pow(base, 0);
    } else if v < base {
      PowAtLeast(base, n);
    } else {
      var q := Quotient(v, base);
      DigitCount(q, base, upper, n - 1);
      QuotientBelow(v, base, Pow(base, n - 1));
    }
  }

  lemma {:induction false} PowAtLeast(base: nat, n: nat)
    requires base >= 2 && n > 0
    ensures Pow(base, n) >= base
  {
    if n == 1 {
      assert Pow(base, 1) == base * Pow(base, 0);
    } else {
      PowAtLeast(base, n - 1);
      Grows(base, Pow(base, n - 1));
    }
  }

  lemma Grows(b: nat, p: nat)
    requires b >= 2 && p >= b
    ensures b * p >= b
  {}

  lemma QuotientBelow(v: nat, base: nat, p: nat)
    requires base >= 2
    ensures v / base < p <==> v < base * p
  {
    BelowProduct(v, base, p, v / base, v % base);
  }

  lemma BelowProduct(v: nat, base: nat, p: nat, q: nat, r: nat)
    requires v == base * q + r && r < base
    ensures q < p <==> v < base * p
  {
    if q < p {
      ProductMonotone(base, base, q + 1, p);
      assert base * (q + 1) == base * q + base;
    } else {
      ProductMonotone(base, base, p, q);
    }
  }

  /** 64-bit numbers always fit in bases 8, 10 and 16, and numbers below 2^31 in base 2 (2^32
      without a sign), for widths below 32. */
  lemma EnoughRoom(v: nat, negative: bool, base: nat, width: nat, flags: Flags)
    requires base in {2, 8, 10, 16} && v < TWO_64 && width < BUFFER_SIZE
    requires base == 2 ==> v < if Sign(negative, flags) == "" then TWO_32 else TWO_32 / 2
    ensures Fits(v, negative, base, width, flags)
  {
    if base == 2 {
      PowersOf2();
      DigitCount(v, 2, flags.uppercase, if Sign(negative, flags) == "" then 32 else 31);
    } else {
      PowersOf8(base);
      DigitCount(v, base, flags.uppercase, 22);
    }
  }

  lemma {:induction false} PowMonotone(a: nat, b: nat, n: nat)
    requires a <= b
    ensures Pow(a, n) <= Pow(b, n)
  {
    if n > 0 {
      PowMonotone(a, b, n - 1);
      ProductMonotone(a, b, Pow(a, n - 1), Pow(b, n - 1));
    }
  }

  lemma ProductMonotone(a: nat, b: nat, p: nat, q: nat)
    requires a <= b && p <= q
    ensures a * p <= b * q
  {
    assert a * p <= b * p && b * p <= b * q;
  }

  lemma PowersOf2()
    ensures Pow(2, 31) == TWO_32 / 2 && Pow(2, 32) == TWO_32
  {
    PowerStep(2, 0, 8);
    PowerStep(2, 8, 8);
    PowerStep(2, 16, 8);
    PowerStep(2, 24, 7);
    assert Pow(2, 32) == 2 * Pow(2, 31);
  }

  /** Eight doublings at a time. */
  lemma PowerStep(base: nat, n: nat, k: nat)
    requires base == 2 && k in {7, 8}
    ensures Pow(2, n + k) == (if k == 7 then 128 else 256) * Pow(2, n)
  {
    assert Pow(2, n + 3) == 8 * Pow(2, n) by {
      assert Pow(2, n + 1) == 2 * Pow(2, n);
      assert Pow(2, n + 2) == 2 * Pow(2, n + 1);
      assert Pow(2, n + 3) == 2 * Pow(2, n + 2);
    }
    assert Pow(2, n + 4) == 2 * Pow(2, n + 3);
    assert Pow(2, n + 5) == 2 * Pow(2, n + 4);
    assert Pow(2, n + 6) == 2 * Pow(2, n + 5);
    assert Pow(2, n + 7) == 2 * Pow(2, n + 6);
    if k == 8 {
      assert Pow(2, n + 8) == 2 * Pow(2, n + 7);
    }
  }

  lemma PowersOf8(base: nat)
    requires base >= 8
    ensures Pow(base, 22) >= TWO_64
  {
    assert Pow(8, 4) == 4096 by {
      assert Pow(8, 2) == 64;
    }
    FourMore(0);
    FourMore(4);
    FourMore(8);
    FourMore(12);
    FourMore(16);
    assert Pow(8, 21) == 8 * Pow(8, 20);
    assert Pow(8, 22) == 8 * Pow(8, 21);
    PowMonotone(8, base, 22);
  }

  lemma FourMore(n: nat)
    ensures Pow(8, n + 4) == 4096 * Pow(8, n)
  {
    assert Pow(8, n + 1) == 8 * Pow(8, n);
    assert Pow(8, n + 2) == 8 * Pow(8, n + 1);
    assert Pow(8, n + 3) == 8 * Pow(8, n + 2);
    assert Pow(8, n + 4) == 8 * Pow(8, n + 3);
  }

  // ---- what the code prints ----

  /** The digits the buffer keeps: the last 32. */
  function Kept(d: string): (k: string)
    ensures |k| <= BUFFER_SIZE
  {
    if |d| <= BUFFER_SIZE then d else d[|d| - BUFFER_SIZE..]
  }

  function ZeroWidth(s: string, width: nat): nat {
    if width > 0 && s != "" then width - 1 else width
  }

  /** With leading zeros, as far as the buffer goes. */
  function Zeroed(k: string, s: string, width: nat, flags: Flags): string {
    if flags.left || !flags.zeropad then k
    else Repeat('0', Min(ZeroWidth(s, width), BUFFER_SIZE) - |k|) + k
  }

  /** With the sign, if there is room for it. */
  function Signed(z: string, s: string): string {
    if |z| < BUFFER_SIZE then s + z else z
  }

  function Padded(t: string, width: nat, flags: Flags): string {
    (if !flags.left && !flags.zeropad then Repeat(' ', width - |t|) else "") + t
    + (if flags.left then Repeat(' ', width - |t|) else "")
  }

  /** The text for sign s and the digits k in the buffer. */
  function Finish(k: string, s: string, width: nat, flags: Flags): string {
    Padded(Signed(Zeroed(k, s, width, flags), s), width, flags)
  }

  lemma FinishIsLayout(s: string, d: string, width: nat, flags: Flags)
    requires |s| <= 1 && 0 < |d| && |s| + |d| <= BUFFER_SIZE && (flags.zeropad && !flags.left ==> width <= BUFFER_SIZE)
    ensures Finish(d, s, width, flags) == Layout(s, d, width, flags)
  {
    if !flags.left && flags.zeropad {
      assert Zeroed(d, s, width, flags) == Repeat('0', width - |s| - |d|) + d;
      assert |s| == 1 ==> |Zeroed(d, s, width, flags)| < BUFFER_SIZE;
      assert s + (Repeat('0', width - |s| - |d|) + d) == s + Repeat('0', width - |s| - |d|) + d;
    }
  }

  lemma SignLength(negative: bool, flags: Flags)
    ensures |Sign(negative, flags)| <= 1
  {}

  lemma {:induction false} NoSpaceInDigits(v: nat, base: nat, upper: bool)
    requires 2 <= base <= 16
    ensures forall c :: c in Digits(v, base, upper) ==> c != ' '
    decreases v
  {
    hide Quotient, Remainder;
    if v >= base {
      NoSpaceInDigits(Quotient(v, base), base, upper);
    }
  }

  /** Too many digits, or zeros: the text is another one. */
  lemma ZeroTextDiffers(s: string, d: string, width: nat, flags: Flags)
    requires |s| <= 1 && 0 < |d| && flags.zeropad && !flags.left && (|s| + |d| > BUFFER_SIZE || width > BUFFER_SIZE)
    ensures |Finish(Kept(d), s, width, flags)| < |Layout(s, d, width, flags)|
  {
    var z := Zeroed(Kept(d), s, width, flags);
    assert |z| <= BUFFER_SIZE;
    assert |Signed(z, s)| <= BUFFER_SIZE;
  }

  lemma LeftTextDiffers(s: string, d: string, width: nat, flags: Flags)
    requires |s| <= 1 && |s| + |d| > BUFFER_SIZE && flags.left && forall c :: c in d ==> c != ' '
    ensures Finish(Kept(d), s, width, flags) != Layout(s, d, width, flags)
  {
    var text, due := Finish(Kept(d), s, width, flags), Layout(s, d, width, flags);
    assert |Kept(d)| == BUFFER_SIZE;
    if |text| == |due| {
      assert text == Kept(d) + Repeat(' ', width - BUFFER_SIZE);
      assert text[BUFFER_SIZE] == ' ';
      assert due[BUFFER_SIZE] == d[BUFFER_SIZE - |s|] && d[BUFFER_SIZE - |s|] in d;
    }
  }

  lemma RightTextDiffers(s: string, d: string, width: nat, flags: Flags)
    requires |s| <= 1 && |s| + |d| > BUFFER_SIZE && !flags.left && !flags.zeropad && forall c :: c in d ==> c != ' '
    ensures Finish(Kept(d), s, width, flags) == Layout(s, d, width, flags)
            <==> s == " " && |d| == BUFFER_SIZE && width > BUFFER_SIZE
  {
    var text, due := Finish(Kept(d), s, width, flags), Layout(s, d, width, flags);
    assert text == Repeat(' ', width - BUFFER_SIZE) + Kept(d);
    assert due == Repeat(' ', width - |s| - |d|) + s + d;
    if |text| == |due| {
      if |d| > BUFFER_SIZE {
        assert text[width - |d|] == ' ';
        assert due[width - |d|] == d[0] && d[0] in d;
      } else {
        assert text[width - BUFFER_SIZE - 1] == ' ';
        assert due[width - BUFFER_SIZE - 1] == s[0];
        assert s == " " ==> text == due;
      }
    }
  }

  /** What is printed is what C calls for exactly when Prints says so. */
  lemma PrintedIff(v: nat, negative: bool, base: nat, width: nat, flags: Flags)
    requires 2 <= base <= 16
    ensures Finish(Kept(Digits(v, base, flags.uppercase)), Sign(negative, flags), width, flags)
            == Format(v, negative, base, width, flags)
            <==> Prints(v, negative, base, width, flags)
  {
    hide Digits, Finish, Layout, Sign;
    var s, d := Sign(negative, flags), Digits(v, base, flags.uppercase);
    SignLength(negative, flags);
    NoSpaceInDigits(v, base, flags.uppercase);
    if Fits(v, negative, base, width, flags) {
      FinishIsLayout(s, d, width, flags);
    } else if flags.left {
      LeftTextDiffers(s, d, width, flags);
    } else if flags.zeropad {
      ZeroTextDiffers(s, d, width, flags);
    } else {
      RightTextDiffers(s, d, width, flags);
    }
  }

  /** An example of the other kind: 2^31 in base 2 with a space for its sign, in 33 columns. */
  lemma SpaceStandsIn()
    ensures var flags := Flags(false, false, false, true, false);
            && !Fits(0x8000_0000, false, 2, 33, flags) && Prints(0x8000_0000, false, 2, 33, flags)
  {
    PowersOf2();
    DigitCount(0x8000_0000, 2, false, 31);
    DigitCount(0x8000_0000, 2, false, 32);
  }

  // ---- the code ----

  function Rev(s: string): (r: string)
    ensures |r| == |s|
  {
    if s == "" then "" else [s[|s| - 1]] + Rev(s[..|s| - 1])
  }

  /** _out_rev: the buffer backwards, with spaces around it; text is what `out` is given. */
  method OutRev(buf: array<char>, len: nat, width: nat, flags: Flags) returns (text: string)
    requires len <= buf.Length
    ensures text == (if !flags.left && !flags.zeropad then Repeat(' ', width - len) else "")
                    + Rev(buf[..len]) + (if flags.left then Repeat(' ', width - len) else "")
  {
    hide Rev;
    text := "";
    if !flags.left && !flags.zeropad {
      text := Pad("", width - len);
    }
    ghost var pre := text;
    var k: nat := len;
    while k > 0
      invariant k <= len && text + Rev(buf[..k]) == pre + Rev(buf[..len])
    {
      k := k - 1;
      RevMore(buf, k);
      text := text + [buf[k]];
    }
    RevNothing(buf[..0]);
    assert text == pre + Rev(buf[..len]);
    if flags.left {
      text := Pad(text, width - |text|);
    }
  }

  /** Spaces as long as n is positive. */
  method Pad(text: string, n: int) returns (r: string)
    ensures r == text + Repeat(' ', n)
  {
    r := text;
    var i := 0;
    while i < n
      invariant 0 <= i && (i <= n || i == 0) && r == text + Repeat(' ', i)
    {
      r := r + [' '];
      i := i + 1;
    }
  }

  lemma RevNothing(s: string)
    requires s == ""
    ensures Rev(s) == ""
  {}

  lemma RevMore(buf: array<char>, len: nat)
    requires len < buf.Length
    ensures Rev(buf[..len + 1]) == [buf[len]] + Rev(buf[..len])
  {
    assert buf[..len + 1][..len] == buf[..len];
  }

  /** buf[len++] = c */
  method Push(buf: array<char>, len: nat, c: char) returns (n: nat)
    requires len < buf.Length
    modifies buf
    ensures n == len + 1 && Rev(buf[..n]) == [c] + Rev(old(buf[..len]))
  {
    ghost var before := buf[..len];
    buf[len] := c;
    n := len + 1;
    assert buf[..n][..len] == before;
  }

  /** The sign, if there is room for it. */
  method PutSign(buf: array<char>, length: nat, negative: bool, flags: Flags) returns (len: nat)
    requires buf.Length == BUFFER_SIZE && length <= BUFFER_SIZE
    modifies buf
    ensures len <= BUFFER_SIZE
    ensures Rev(buf[..len]) == Signed(Rev(old(buf[..length])), Sign(negative, flags))
  {
    hide Rev;
    len := length;
    if len < BUFFER_SIZE {
      if negative {
        len := Push(buf, len, '-');
        assert ['-'] == Sign(negative, flags);
      } else if flags.plus {
        len := Push(buf, len, '+');
        assert ['+'] == Sign(negative, flags);
      } else if flags.space {
        len := Push(buf, len, ' ');
        assert [' '] == Sign(negative, flags);
      }
    }
    if len == length {
      assert buf[..len] == old(buf[..length]);
    }
  }

  /** Leading zeros up to the width that is left for digits. */
  method PutZeros(buf: array<char>, length: nat, width: nat) returns (len: nat)
    requires buf.Length == BUFFER_SIZE && length <= BUFFER_SIZE
    modifies buf
    ensures length <= len <= BUFFER_SIZE
    ensures Rev(buf[..len]) == Repeat('0', len - length) + Rev(old(buf[..length]))
    ensures len == if length < Min(width, BUFFER_SIZE) then Min(width, BUFFER_SIZE) else length
  {
    hide Rev;
    len := length;
    while len < width && len < BUFFER_SIZE
      invariant length <= len <= BUFFER_SIZE && Rev(buf[..len]) == Repeat('0', len - length) + Rev(old(buf[..length]))
      invariant len <= width || len == length
    {
      len := Push(buf, len, '0');
    }
  }

  /** _ntoa_format: zeros, the sign, and everything out backwards. */
  method NtoaFormat(buf: array<char>, length: nat, negative: bool, givenWidth: nat, flags: Flags) returns (text: string)
    requires buf.Length == BUFFER_SIZE && 0 < length <= BUFFER_SIZE
    modifies buf
    ensures text == Finish(Rev(old(buf[..length])), Sign(negative, flags), givenWidth, flags)
    ensures |Sign(negative, flags)| + length <= BUFFER_SIZE
            && (flags.zeropad && !flags.left ==> givenWidth <= BUFFER_SIZE) ==>
              text == Layout(Sign(negative, flags), Rev(old(buf[..length])), givenWidth, flags)
  {
    hide Rev, Layout, Repeat;
    var len, width := length, givenWidth;
    ghost var d, s := Rev(buf[..length]), Sign(negative, flags);
    SignIs(negative, flags);
    if !flags.left {
      if width > 0 && flags.zeropad && (negative || flags.plus || flags.space) {
        width := width - 1;
      }
      if flags.zeropad {
        len := PutZeros(buf, len, width);
        ZerosAre(d, Rev(buf[..len]), len - length, s, givenWidth, flags);
      }
    }
    assert Rev(buf[..len]) == Zeroed(d, s, givenWidth, flags);
    len := PutSign(buf, len, negative, flags);
    text := OutRev(buf, len, width, flags);
    if |s| + length <= BUFFER_SIZE && (flags.zeropad && !flags.left ==> givenWidth <= BUFFER_SIZE) {
      FinishIsLayout(s, d, givenWidth, flags);
    }
  }

  lemma SignIs(negative: bool, flags: Flags)
    ensures Sign(negative, flags) != "" <==> negative || flags.plus || flags.space
    ensures |Sign(negative, flags)| <= 1
  {}

  lemma ZerosAre(d: string, z: string, n: nat, s: string, width: nat, flags: Flags)
    requires z == Repeat('0', n) + d && !flags.left && flags.zeropad
    requires n == if |d| < Min(ZeroWidth(s, width), BUFFER_SIZE) then Min(ZeroWidth(s, width), BUFFER_SIZE) - |d| else 0
    ensures z == Zeroed(d, s, width, flags)
  {}

  /** The digits of the higher places, none if there are no such places. */
  function HighDigits(v: nat, base: nat, upper: bool): string
    requires 2 <= base <= 16
  {
    if v == 0 then "" else Digits(v, base, upper)
  }

  lemma LastDigit(v: nat, base: nat, upper: bool)
    requires 2 <= base <= 16
    ensures Digits(v, base, upper)
            == HighDigits(Quotient(v, base), base, upper) + [DigitChar(Remainder(v, base), upper)]
  {}

  lemma OneMoreDigit(high: string, c: char, low: string, all: string)
    requires all == high + [c] + low
    ensures all == high + ([c] + low)
  {}

  /** The loop of _ntoa_long: the digits into the buffer, last one first. */
  method PutDigits(buf: array<char>, value: nat, base: nat, upper: bool) returns (len: nat)
    requires buf.Length == BUFFER_SIZE && 2 <= base <= 16
    modifies buf
    ensures 0 < len <= BUFFER_SIZE
    ensures Rev(buf[..len]) == Kept(Digits(value, base, upper))
  {
    hide Digits, DigitChar, Rev, Quotient, Remainder;
    var v: nat := value;
    len := 0;
    ghost var all := Digits(value, base, upper);
    RevNothing(buf[..0]);
    while true
      invariant len < BUFFER_SIZE && all == Digits(v, base, upper) + Rev(buf[..len])
      decreases BUFFER_SIZE - len
    {
      ghost var low := Rev(buf[..len]);
      var c := DigitChar(Remainder(v, base), upper);
      LastDigit(v, base, upper);
      len := Push(buf, len, c);
      v := Quotient(v, base);
      OneMoreDigit(HighDigits(v, base, upper), c, low, all);
      if v == 0 || len == BUFFER_SIZE {
        break;
      }
    }
  }

  /** _ntoa_long: every store stays inside the 32-byte buffer, and the text is what printf should
      print exactly when Prints says so. */
  method NtoaLong(value: nat, negative: bool, base: nat, width: nat, flags: Flags) returns (text: string)
    requires value < TWO_64 && 2 <= base <= 16
    ensures text == Finish(Kept(Digits(value, base, flags.uppercase)), Sign(negative, flags), width, flags)
    ensures text == Format(value, negative, base, width, flags) <==> Prints(value, negative, base, width, flags)
  {
    hide Digits, Rev, Layout, Finish, Format, Prints;
    var buf := new char[BUFFER_SIZE];
    var len := PutDigits(buf, value, base, flags.uppercase);
    text := NtoaFormat(buf, len, negative, width, flags);
    PrintedIff(value, negative, base, width, flags);
  }
}
