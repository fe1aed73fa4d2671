/** int2str, str2int and write_int of the user library. */
module Digits {
  import opened Bytes

  const ZERO: int := 48
  const MINUS: byte := 45
  const NUL: byte := 0
  const INT_LIMIT: int := 0x8000_0000

  // A 32-bit int multiplication result, as it wraps around.
  function Wrap(x: int): int {
    (x + 0x8000_0000) % 0x1_0000_0000 - 0x8000_0000
  }

  // Bases whose digit characters, counted up from '0', fit in a char.
  predicate BaseOk(base: int) {
    2 <= base <= 256 - ZERO
  }

  function Abs(v: int): nat {
    if v < 0 then -v else v
  }

  // Quotient and remainder of a non-negative value, as / and % give them.
  function Quot(v: nat, base: int): nat
    requires base >= 2
  {
    v / base
  }

  function Rem(v: nat, base: int): nat
    requires base >= 2
  {
    v % base
  }

  lemma Divide(v: nat, base: int)
    requires base >= 2
    ensures v == Quot(v, base) * base + Rem(v, base) && Rem(v, base) < base
    ensures v > 0 ==> Quot(v, base) < v
  {
    if Quot(v, base) >= v {
      ProductNonneg(base - 1, Quot(v, base));
    }
  }

  // The digit characters of v, least significant first.
  function LowFirst(v: nat, base: int): (s: seq<byte>)
    requires BaseOk(base)
    ensures |s| > 0
    decreases v
  {
    Divide(v, base);
    [Rem(v, base) + ZERO] + if Quot(v, base) == 0 then [] else LowFirst(Quot(v, base), base)
  }

  function Reverse(s: seq<byte>): (r: seq<byte>)
    ensures |r| == |s|
  {
    seq(|s|, i requires 0 <= i < |s| => s[|s| - 1 - i])
  }

  /** The text of v: an optional minus sign, then digits, most significant first. */
  function Text(v: int, base: int): seq<byte>
    requires BaseOk(base)
  {
    (if v < 0 then [MINUS] else []) + Reverse(LowFirst(Abs(v), base))
  }

  function Power(base: int, e: nat): (p: int)
    requires base >= 2
    ensures p >= 1
  {
    if e == 0 then 1 else base * Power(base, e - 1)
  }

  /** The number a digit text stands for, read from the left. */
  function Horner(s: seq<byte>, base: int): int {
    if s == [] then 0 else Horner(s[..|s| - 1], base) * base + (s[|s| - 1] - ZERO)
  }

  // What follows the last minus sign; everything if there is none.
  function AfterMinus(s: seq<byte>): (d: seq<byte>)
    ensures |d| <= |s| && d == s[|s| - |d|..] && MINUS !in d
    ensures MINUS in s <==> |d| < |s|
    ensures |d| < |s| ==> s[|s| - |d| - 1] == MINUS
  {
    if s == [] || s[|s| - 1] == MINUS then [] else AfterMinus(s[..|s| - 1]) + [s[|s| - 1]]
  }

  /** The number a text stands for: the digits behind its last minus sign, negated if there is one. */
  function Parse(s: seq<byte>, base: int): int {
    if MINUS in s then -Horner(AfterMinus(s), base) else Horner(AfterMinus(s), base)
  }

  predicate DigitChars(s: seq<byte>) {
    forall i | 0 <= i < |s| :: s[i] >= ZERO
  }

  lemma Distribute(d: int, p: int, h: int, b: int)
    ensures (d * p + h) * b == d * (b * p) + h * b
  {
    assert (d * p + h) * b == d * p * b + h * b;
    assert d * p * b == d * (p * b);
  }

  lemma ProductNonneg(x: int, y: int)
    requires x >= 0 && y >= 0
    ensures x * y >= 0
    ensures x >= 1 ==> x * y >= y
  {
    if x >= 1 {
      assert x * y == y + (x - 1) * y;
    }
  }

  // Splitting off the most significant digit.
  lemma {:induction false} HornerFirst(s: seq<byte>, base: int)
    requires s != [] && base >= 2
    ensures Horner(s, base) == (s[0] - ZERO) * Power(base, |s| - 1) + Horner(s[1..], base)
    decreases |s|
  {
    var n := |s|;
    if n > 1 {
      var pre := s[..n - 1];
      HornerFirst(pre, base);
      HornerLast(s, base);
      HornerLast(s[1..], base);
      assert pre[1..] == s[1..][..n - 2];
      PowerStep(base, n - 2);
      Distribute(s[0] - ZERO, Power(base, n - 2), Horner(pre[1..], base), base);
    } else {
      assert s[..0] == [] && s[1..] == [];
      assert Power(base, 0) == 1 && Horner([], base) == 0;
    }
  }

  lemma HornerLast(s: seq<byte>, base: int)
    requires s != []
    ensures Horner(s, base) == Horner(s[..|s| - 1], base) * base + (s[|s| - 1] - ZERO)
  {
  }

  lemma {:induction false} HornerNonneg(s: seq<byte>, base: int)
    requires DigitChars(s) && base >= 2
    ensures Horner(s, base) >= 0
    decreases |s|
  {
    if s != [] {
      HornerNonneg(s[..|s| - 1], base);
      ProductNonneg(Horner(s[..|s| - 1], base), base);
    }
  }

  lemma {:induction false} HornerOfReverse(v: nat, base: int)
    requires BaseOk(base)
    ensures Horner(Reverse(LowFirst(v, base)), base) == v
    ensures DigitChars(LowFirst(v, base))
    decreases v
  {
    hide Quot, Rem, Horner;
    Divide(v, base);
    var s := LowFirst(v, base);
    var r := Reverse(s);
    HornerLast(r, base);
    if Quot(v, base) == 0 {
      assert r == [Rem(v, base) + ZERO] && r[..0] == [];
      EmptyValue(base);
    } else {
      HornerOfReverse(Quot(v, base), base);
      assert r[..|r| - 1] == Reverse(s[1..]);
    }
  }

  lemma EmptyValue(base: int)
    ensures Horner([], base) == 0
  {
  }

  /** Printing and parsing back gives the value, for every int and every base. */
  lemma RoundTrip(v: int, base: int)
    requires BaseOk(base)
    ensures Parse(Text(v, base), base) == v
  {
    var t, d := Text(v, base), Reverse(LowFirst(Abs(v), base));
    HornerOfReverse(Abs(v), base);
    assert forall i | 0 <= i < |d| :: d[i] >= ZERO;
    if v < 0 {
      assert t[0] == MINUS;
      MinusFirst(d);
    } else {
      assert t == d;
      NoMinus(d);
    }
  }

  lemma {:induction false} MinusFirst(d: seq<byte>)
    requires DigitChars(d)
    ensures AfterMinus([MINUS] + d) == d
    decreases |d|
  {
    var s := [MINUS] + d;
    if d != [] {
      assert s[..|s| - 1] == [MINUS] + d[..|d| - 1];
      MinusFirst(d[..|d| - 1]);
    }
  }

  lemma {:induction false} LengthBound(v: nat, base: int, k: nat)
    requires BaseOk(base) && k >= 1 && v < Power(base, k)
    ensures |LowFirst(v, base)| <= k
    decreases k
  {
    hide Quot, Rem;
    Divide(v, base);
    var q, p := Quot(v, base), Power(base, k - 1);
    if q != 0 {
      QuotientBound(q, Rem(v, base), p, base);
      LengthBound(q, base, k - 1);
    }
  }

  lemma QuotientBound(q: nat, r: int, p: int, base: int)
    requires base >= 2 && p >= 1 && 0 <= r && q * base + r < base * p
    ensures q < p
  {
    if q >= p {
      ProductNonneg(base, q - p);
      Distribute(1, q - p, p, base);
    }
  }

  /** Every 32-bit int but the smallest prints in base 10 as at most 11 characters. */
  lemma DecimalFits(v: int)
    requires -INT_LIMIT < v < INT_LIMIT
    ensures |Text(v, 10)| <= 11
  {
    TenDigits();
    LengthBound(Abs(v), 10, 10);
  }

  lemma TenDigits()
    ensures Power(10, 10) == 10_000_000_000
  {
    assert Power(10, 2) == 100;
    assert Power(10, 4) == 10 * (10 * Power(10, 2));
    assert Power(10, 6) == 10 * (10 * Power(10, 4));
    assert Power(10, 8) == 10 * (10 * Power(10, 6));
    assert Power(10, 10) == 10 * (10 * Power(10, 8));
  }

  lemma LowFirstStep(v: nat, base: int)
    requires BaseOk(base)
    ensures LowFirst(v, base) == [Rem(v, base) + ZERO] + if Quot(v, base) == 0 then []
                                                         else LowFirst(Quot(v, base), base)
  {
  }

  // The digit loop of int2str: digits from the low end.
  method WriteDigits(v: nat, str: array<byte>, base: int) returns (c: nat)
    requires BaseOk(base) && |LowFirst(v, base)| < str.Length
    modifies str
    ensures c == |LowFirst(v, base)| && str[..c] == LowFirst(v, base)
    ensures forall j | c <= j < str.Length :: str[j] == old(str[j])
  {
    hide Quot, Rem, LowFirst;
    ghost var low := LowFirst(v, base);
    c := 0;
    var value, more := v, true;  // a do-while loop: the first round is unconditional
    while more || value != 0
      invariant 0 <= value && c <= |low| && (more ==> c == 0 && value == v)
      invariant more || value != 0 ==> low == str[..c] + LowFirst(value, base)
      invariant !more && value == 0 ==> str[..c] == low
      invariant forall j | |low| <= j < str.Length :: str[j] == old(str[j])
      decreases value, more
    {
      ghost var was := str[..c];
      Divide(value, base);
      LowFirstStep(value, base);
      str[c] := Rem(value, base) + ZERO;
      c := c + 1;
      assert str[..c] == was + [Rem(value, base) + ZERO];
      value := Quot(value, base);
      more := false;
    }
  }

  /** int2str: digits are produced from the low end and the text is then reversed in place. */
  method Int2Str(v: int, str: array<byte>, base: int) returns (ghost n: nat)
    requires -INT_LIMIT < v < INT_LIMIT && BaseOk(base) && |Text(v, base)| < str.Length
    modifies str
    ensures n == |Text(v, base)| && str[..n] == Text(v, base) && str[n] == NUL
    ensures forall j | n < j < str.Length :: str[j] == old(str[j])
    ensures str[n] == 0 && (v < 0 ==> str[0] == 45) && (0 <= v < base ==> n == 1 && str[0] == 48 + v)
    ensures forall i | (if v < 0 then 1 else 0) <= i < n :: 48 <= str[i] < 48 + base
    ensures base <= v ==> str[..n] == Text(v / base, base) + [48 + v % base]
  {
    hide Quot, Rem, Text, LowFirst, Reverse;
    TextMeans(v, base);
    var c := 0;
    TextLength(v, base);
    if v == 0 {
      str[c] := ZERO;
      c := c + 1;
      ZeroText(base);
    } else {
      var value, negative := v, false;
      if value < 0 {
        negative := true;
        value := value * -1;
      }
      c := WriteDigits(value, str, base);
      ghost var low := str[..c];
      if negative {
        str[c] := MINUS;
        c := c + 1;
      }
      assert str[..c] == low + if negative then [MINUS] else [];
      ReverseText(v, base);
      ReverseFront(str, c);
    }
    ghost var text := str[..c];
    str[c] := NUL;
    n := c;
    assert str[..n] == text == Text(v, base);
    assert forall i | 0 <= i < n :: str[i] == text[i];
  }

  lemma {:induction false} LowDigits(v: nat, base: int)
    requires BaseOk(base)
    ensures forall i | 0 <= i < |LowFirst(v, base)| :: 48 <= LowFirst(v, base)[i] < 48 + base
    decreases v
  {
    hide Quot, Rem;
    Divide(v, base);
    if Quot(v, base) != 0 {
      LowDigits(Quot(v, base), base);
    }
  }

  lemma LastDigitLast(v: nat, base: int)
    requires BaseOk(base) && v >= base
    ensures v / base > 0 && Reverse(LowFirst(v, base)) == Reverse(LowFirst(v / base, base)) + [48 + v % base]
  {
    LowFirstStep(v, base);
    AtLeastOne(v, base);
    hide LowFirst;
    assert LowFirst(v, base) == [v % base + 48] + LowFirst(v / base, base);
  }

  lemma AtLeastOne(v: nat, base: int)
    requires 1 <= base <= v
    ensures v / base >= 1
  {
  }

  /** The text in characters: a minus sign is 45, digit d is 48 + d, and the last digit of a number of more
      than one is its remainder by the base, behind the text of the quotient. */
  lemma TextMeans(v: int, base: int)
    requires BaseOk(base)
    ensures var s := Text(v, base);
            && |s| > 0 && (v < 0 ==> s[0] == 45) && (0 <= v < base ==> s == [48 + v])
            && (forall i | (if v < 0 then 1 else 0) <= i < |s| :: 48 <= s[i] < 48 + base)
            && (base <= v ==> s == Text(v / base, base) + [48 + v % base])
  {
    hide LowFirst;
    LowDigits(Abs(v), base);
    if base <= v {
      LastDigitLast(v, base);
    } else if 0 <= v {
      OneDigit(v, base);
    }
  }

  lemma OneDigit(v: nat, base: int)
    requires BaseOk(base) && v < base
    ensures LowFirst(v, base) == [48 + v]
  {
    assert v / base == 0 && v % base == v;
  }

  lemma ZeroText(base: int)
    requires BaseOk(base)
    ensures Text(0, base) == [ZERO]
  {
  }

  lemma TextLength(v: int, base: int)
    requires BaseOk(base)
    ensures |Text(v, base)| == |LowFirst(Abs(v), base)| + if v < 0 then 1 else 0
  {
  }

  lemma ReverseText(v: int, base: int)
    requires BaseOk(base)
    ensures Text(v, base) == Reverse(LowFirst(Abs(v), base) + if v < 0 then [MINUS] else [])
  {
  }

  // The in-place reversal of the first c characters.
  method ReverseFront(str: array<byte>, c: nat)
    requires 0 < c < str.Length
    modifies str
    ensures str[..c] == Reverse(old(str[..c]))
    ensures forall j | c <= j < str.Length :: str[j] == old(str[j])
  {
    var i := 0;
    while i <= (c - 1) / 2
      invariant 0 <= i <= (c - 1) / 2 + 1
      invariant forall j | 0 <= j < i :: str[j] == old(str[c - j - 1]) && str[c - j - 1] == old(str[j])
      invariant forall j | i <= j < c - i :: str[j] == old(str[j])
      invariant forall j | c <= j < str.Length :: str[j] == old(str[j])
    {
      var t := str[i];
      str[i] := str[c - i - 1];
      str[c - i - 1] := t;
      i := i + 1;
    }
  }

  lemma {:induction false} HornerSuffix(d: seq<byte>, m: nat, base: int)
    requires m <= |d| && DigitChars(d) && base >= 2
    ensures 0 <= Horner(d[m..], base) <= Horner(d, base)
    decreases m
  {
    HornerNonneg(d[m..], base);
    if m == 0 {
      assert d[0..] == d;
    } else {
      HornerSuffix(d[1..], m - 1, base);
      assert d[1..][m - 1..] == d[m..];
      HornerFirst(d, base);
      ProductNonneg(d[0] - ZERO, Power(base, |d| - 1));
    }
  }

  lemma NoWrap(x: int)
    requires 0 <= x < INT_LIMIT
    ensures Wrap(x) == x
  {
  }

  lemma WrapCongruent(x: int, t: int)
    ensures Wrap(x + t * 0x1_0000_0000) == Wrap(x)
  {
  }

  // Wrapping at every step or once at the end gives the same power.
  lemma WrapStep(p: int, base: int)
    ensures Wrap(Wrap(p) * base) == Wrap(base * p)
  {
    var t := (p + 0x8000_0000) / 0x1_0000_0000;
    var w := Wrap(p);
    assert p == w + t * 0x1_0000_0000;
    Regroup(w, t, base);
    WrapCongruent(w * base, t * base);
  }

  lemma Regroup(w: int, t: int, base: int)
    ensures base * (w + t * 0x1_0000_0000) == w * base + (t * base) * 0x1_0000_0000
  {
  }

  // The next digit to the left counts its place value; a wrapped power only meets the digit 0.
  lemma PlaceValue(d: seq<byte>, k: nat, base: int)
    requires k < |d| && DigitChars(d) && BaseOk(base) && Horner(d, base) < INT_LIMIT
    ensures var m := |d| - k;
            Horner(d[m - 1..], base) == Horner(d[m..], base) + Wrap(Power(base, k)) * (d[m - 1] - ZERO)
  {
    hide Horner, Power, Wrap;
    var m := |d| - k;
    var u, p := d[m - 1..], Power(base, k);
    HornerFirst(u, base);
    assert u[1..] == d[m..];
    HornerSuffix(d, m - 1, base);
    HornerSuffix(d, m, base);
    if d[m - 1] != ZERO {
      ProductNonneg(d[m - 1] - ZERO, p);
      assert Wrap(p) == p by { NoWrap(p); }
    } else {
      assert u[0] - ZERO == 0;
      assert (u[0] - ZERO) * p == 0 && Wrap(p) * (u[0] - ZERO) == 0;
    }
  }

  // The two products of the loop, as 32-bit ints give them.
  function PlaceTerm(e: int, c: byte): int {
    e * (c - ZERO)
  }

  function NextPower(e: int, base: int): int {
    Wrap(e * base)
  }

  // The value of the last k digits.
  function LastValue(d: seq<byte>, k: nat, base: int): int
    requires k <= |d|
  {
    Horner(d[|d| - k..], base)
  }

  lemma NextDigit(d: seq<byte>, k: nat, base: int, e: int)
    requires k < |d| && DigitChars(d) && BaseOk(base) && Horner(d, base) < INT_LIMIT && e == Wrap(Power(base, k))
    ensures LastValue(d, k + 1, base) == LastValue(d, k, base) + PlaceTerm(e, d[|d| - k - 1])
    ensures NextPower(e, base) == Wrap(Power(base, k + 1))
  {
    hide Wrap, Horner, Power, DigitChars;
    PlaceValue(d, k, base);
    WrapStep(Power(base, k), base);
    PowerStep(base, k);
  }

  /** str2int: reads digits from the right until a minus sign. The running power of the base may
      wrap around, but only where it no longer matters. */
  method Str2Int(str: array<byte>, n: nat, base: int) returns (r: int)
    requires n <= str.Length && BaseOk(base)
    requires DigitChars(AfterMinus(str[..n])) && Horner(AfterMinus(str[..n]), base) < INT_LIMIT
    ensures r == Parse(str[..n], base)
  {
    hide Wrap, Horner, Power, AfterMinus, PlaceTerm, NextPower, DigitChars, LastValue, Parse;
    ghost var s := str[..n];
    ghost var d := AfterMinus(s);
    var e, value := 1, 0;
    StartValues(d, base);
    var i := n - 1;
    while i >= 0
      invariant -1 <= i < n && n - 1 - i <= |d|
      invariant value == LastValue(d, n - 1 - i, base) && e == Wrap(Power(base, n - 1 - i))
      decreases i + 1
    {
      var c := str[i];
      assert c == s[n - 1 - (n - 1 - i)];
      FromTheRight(s, n - 1 - i, base);
      if c == MINUS {
        return -value;
      }
      NextDigit(d, n - 1 - i, base, e);
      value := value + PlaceTerm(e, c);
      e := NextPower(e, base);
      i := i - 1;
    }
    WithoutSign(s, base);
    return value;
  }

  // The character k places from the right of s.
  lemma FromTheRight(s: seq<byte>, k: nat, base: int)
    requires k < |s| && k <= |AfterMinus(s)|
    ensures var d, c := AfterMinus(s), s[|s| - 1 - k];
            if c == MINUS then k == |d| && Parse(s, base) == -Horner(d, base) else k < |d| && c == d[|d| - k - 1]
  {
    var d := AfterMinus(s);
    if k < |d| {
      assert d[|d| - k - 1] == s[|s| - |d|..][|d| - k - 1] == s[|s| - 1 - k];
    }
  }

  lemma WithoutSign(s: seq<byte>, base: int)
    ensures |AfterMinus(s)| == |s| ==> Parse(s, base) == Horner(AfterMinus(s), base)
  {
  }

  lemma StartValues(d: seq<byte>, base: int)
    requires base >= 2
    ensures LastValue(d, 0, base) == 0 && Wrap(Power(base, 0)) == 1
    ensures LastValue(d, |d|, base) == Horner(d, base)
  {
    assert d[|d|..] == [] && d[0..] == d;
  }

  lemma PowerStep(base: int, k: nat)
    requires base >= 2
    ensures Power(base, k + 1) == base * Power(base, k)
  {
  }

  // Where the terminator is.
  method StrLen(str: array<byte>, ghost n: nat) returns (len: nat)
    requires n < str.Length && str[n] == NUL && forall j | 0 <= j < n :: str[j] != NUL
    ensures len == n
  {
    len := 0;
    while str[len] != NUL
      invariant len <= n
      decreases n - len
    {
      len := len + 1;
    }
  }

  /** Printing into a buffer and reading it back returns the value. */
  method PrintAndParse(v: int, str: array<byte>, base: int) returns (r: int, ghost n: nat)
    requires -INT_LIMIT < v < INT_LIMIT && BaseOk(base) && |Text(v, base)| < str.Length
    modifies str
    ensures r == v
  {
    hide Text, Horner, Parse, AfterMinus, DigitChars;
    n := Int2Str(v, str, base);
    TextHasNoNul(v, base);
    assert forall j | 0 <= j < n :: str[j] == str[..n][j] && str[j] != NUL;
    var len := StrLen(str, n);
    TextIsDigits(v, base);
    r := Str2Int(str, len, base);
    RoundTrip(v, base);
  }

  lemma TextHasNoNul(v: int, base: int)
    requires BaseOk(base)
    ensures forall i | 0 <= i < |Text(v, base)| :: Text(v, base)[i] != NUL
  {
    HornerOfReverse(Abs(v), base);
  }

  lemma TextIsDigits(v: int, base: int)
    requires BaseOk(base)
    ensures DigitChars(AfterMinus(Text(v, base))) && Horner(AfterMinus(Text(v, base)), base) == Abs(v)
  {
    hide Horner, AfterMinus, LowFirst;
    var d := Reverse(LowFirst(Abs(v), base));
    HornerOfReverse(Abs(v), base);
    assert DigitChars(d);
    if v < 0 {
      MinusFirst(d);
    } else {
      NoMinus(d);
      assert Text(v, base) == d;
    }
  }

  lemma NoMinus(d: seq<byte>)
    requires DigitChars(d)
    ensures MINUS !in d && AfterMinus(d) == d
  {
  }

  /** write_int: finds the terminator within its 12 bytes, so exactly the decimal text is written. */
  method WriteInt(buf: array<byte>, x: int) returns (written: seq<byte>)
    requires -INT_LIMIT < x < INT_LIMIT && buf.Length >= 12
    modifies buf
    ensures written == Text(x, 10)
  {
    DecimalFits(x);
    TextHasNoNul(x, 10);
    ghost var len := Int2Str(x, buf, 10);
    assert forall j | 0 <= j < len :: buf[j] == buf[..len][j] && buf[j] != NUL;
    for n := 0 to 12
      invariant n <= len
    {
      if buf[n] == NUL {
        return buf[..n];
      }
    }
    assert false;
  }
}
