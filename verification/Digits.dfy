/** Numbers as text: the digit loops of the formatted output, and the numerals they produce. */
module Digits {
  import opened Arithmetic
  import opened Terminals

  const BUFFER := 64
  const INT_LIMIT := 0x8000_0000   // one more than the greatest int; long has the same range
  const UINT_LIMIT := 0x1_0000_0000

  const DIGITS: seq<char> := "0123456789abcdefghijklmnopqrstuvwxyz"

  function Digit(d: nat): (c: Byte)
    requires d < 36
    ensures c != '\0' && c != '-'
  {
    if d < 10 then ('0' as int + d) as char else ('a' as int + d - 10) as char
  }

  lemma DigitIsTableEntry(d: nat)
    requires d < 36
    ensures |DIGITS| == 36 && DIGITS[d] == Digit(d)
  {
  }

  function DigitValue(c: char): nat {
    if '0' <= c <= '9' then c as int - '0' as int
    else if 'a' <= c <= 'z' then c as int - 'a' as int + 10
    else 36
  }

  // ----- Numerals -----

  /** The digits of n, the highest first. */
  function Numeral(n: nat, base: nat): (s: seq<Byte>)
    requires 2 <= base <= 35 || (base == 1 && n == 0)
    ensures |s| > 0 && '\0' !in s && '-' !in s
    decreases n
  {
    if n < base then [Digit(n)] else (Quotient(n, base); Numeral(n / base, base) + [Digit(n % base)])
  }

  lemma Quotient(n: nat, base: nat)
    requires base >= 2
    ensures n / base * base + n % base == n && n % base < base && n / base * 2 <= n
    ensures n > 0 ==> n / base < n
    ensures n >= base <==> n / base > 0
    ensures n < base ==> n % base == n
  {
    QuotientBounds(n, n / base, n % base, base);
  }

  lemma QuotientBounds(n: nat, q: nat, r: nat, base: nat)
    requires base >= 2 && r < base && n == q * base + r
    ensures q * 2 <= n && (n > 0 ==> q < n) && (n >= base <==> q > 0)
  {
    assert q * base >= q * 2;
    assert q == 0 ==> q * base == 0;
    assert q > 0 ==> q * base >= base;
  }

  /** The last digit, after the numeral of the quotient if that is not zero. */
  lemma NumeralStep(n: nat, base: nat)
    requires 2 <= base <= 35 || (base == 1 && n == 0)
    ensures Numeral(n, base) == (if n / base > 0 then Numeral(n / base, base) else []) + [Digit(n % base)]
  {
    if base >= 2 {
      Quotient(n, base);
    }
  }

  /** The value of a text read digit by digit. */
  function Parse(s: seq<char>, base: nat): nat {
    if s == [] then 0 else Parse(s[..|s| - 1], base) * base + DigitValue(s[|s| - 1])
  }

  lemma DigitHasValue(d: nat)
    requires d < 36
    ensures DigitValue(Digit(d)) == d
  {
  }

  lemma ParseLast(s: seq<Byte>, c: Byte, base: nat)
    ensures Parse(s + [c], base) == Parse(s, base) * base + DigitValue(c)
  {
    assert (s + [c])[..|s|] == s;
  }

  /** Reading a numeral back gives the number. */
  lemma {:induction false} ParseNumeral(n: nat, base: nat)
    requires 2 <= base <= 35
    ensures Parse(Numeral(n, base), base) == n
    decreases n
  {
    if n < base {
      assert Numeral(n, base) == [] + [Digit(n)];
      ParseLast([], Digit(n), base);
      DigitHasValue(n);
    } else {
      Quotient(n, base);
      ParseNumeral(n / base, base);
      ParseLast(Numeral(n / base, base), Digit(n % base), base);
      DigitHasValue(n % base);
    }
  }

  /** Only zero begins with the digit zero. */
  lemma {:induction false} NoLeadingZero(n: nat, base: nat)
    requires 2 <= base <= 35
    ensures Numeral(n, base)[0] == '0' <==> n == 0
    decreases n
  {
    if n >= base {
      Quotient(n, base);
      NoLeadingZero(n / base, base);
    }
  }

  /** A text of digits of the base that has no zero in front. */
  predicate IsNumeral(s: seq<char>, base: nat) {
    && s != [] && (forall i :: 0 <= i < |s| ==> DigitValue(s[i]) < base)
    && (s[0] == '0' ==> |s| == 1)
  }

  lemma {:induction false} NumeralIsNumeral(n: nat, base: nat)
    requires 2 <= base <= 35
    ensures IsNumeral(Numeral(n, base), base)
    decreases n
  {
    Quotient(n, base);
    DigitHasValue(n % base);
    NoLeadingZero(n, base);
    if n >= base {
      NumeralIsNumeral(n / base, base);
    }
  }

  lemma AtLeast(p: nat, base: nat)
    requires base > 0
    ensures p * base >= p
  {
  }

  lemma {:induction false} ParsePositive(s: seq<char>, base: nat)
    requires 2 <= base <= 35 && s != [] && s[0] != '0' && DigitValue(s[0]) < base
    ensures Parse(s, base) > 0
  {
    var n := |s| - 1;
    if n > 0 {
      ParsePositive(s[..n], base);
      AtLeast(Parse(s[..n], base), base);
    }
  }

  lemma DigitOfValue(c: Byte)
    requires DigitValue(c) < 36
    ensures Digit(DigitValue(c)) == c
  {
  }

  lemma NumeralAppend(p: nat, d: nat, base: nat)
    requires 2 <= base <= 35 && p > 0 && d < base
    ensures Numeral(p * base + d, base) == Numeral(p, base) + [Digit(d)]
  {
    Euclid(p * base + d, p, d, base);
    NumeralStep(p * base + d, base);
  }

  /** The numeral of a number is the only such text that reads as it. */
  lemma {:induction false} NumeralUnique(s: seq<Byte>, base: nat)
    requires 2 <= base <= 35 && IsNumeral(s, base)
    ensures s == Numeral(Parse(s, base), base)
  {
    var n := |s| - 1;
    var rest, c := s[..n], s[n];
    assert s == rest + [c];
    ParseLast(rest, c, base);
    DigitOfValue(c);
    if n > 0 {
      assert rest[0] == s[0];
      NumeralUnique(rest, base);
      ParsePositive(rest, base);
      NumeralAppend(Parse(rest, base), DigitValue(c), base);
    } else {
      assert Numeral(DigitValue(c), base) == [c];
    }
  }

  /** A number below 2^k has at most k digits in any base. */
  lemma {:induction false} NumeralLength(n: nat, base: nat, k: nat)
    requires 2 <= base <= 35 && n < Pow2(k) && k > 0
    ensures |Numeral(n, base)| <= k
    decreases k
  {
    if n >= base && k > 1 {
      Quotient(n, base);
      NumeralLength(n / base, base, k - 1);
    }
  }

  lemma WordLength(n: nat, base: nat)
    requires 2 <= base <= 35 && n < UINT_LIMIT
    ensures |Numeral(n, base)| <= 32
  {
    assert Pow2(8) == 256;
    assert Pow2(16) == 256 * Pow2(8);
    assert Pow2(24) == 256 * Pow2(16);
    assert Pow2(32) == 256 * Pow2(24);
    NumeralLength(n, base, 32);
  }

  // ----- Strings in a buffer -----

  function Reversed(s: seq<Byte>): (r: seq<Byte>)
    ensures |r| == |s| && forall i :: 0 <= i < |s| ==> r[i] == s[|s| - 1 - i]
  {
    seq(|s|, i requires 0 <= i < |s| => s[|s| - 1 - i])
  }

  lemma ReversedAppend(d: Byte, s: seq<Byte>)
    ensures Reversed([d] + s) == Reversed(s) + [d]
  {
  }

  /** s begins with text and a terminating NUL. */
  ghost predicate HoldsText(s: seq<Byte>, text: seq<Byte>) {
    && |text| < |s| && '\0' !in text
    && s[..|text|] == text && s[|text|] == '\0'
  }

  method StrLen(s: array<Byte>, ghost text: seq<Byte>) returns (n: nat)
    requires HoldsText(s[..], text)
    ensures n == |text|
  {
    forall k | 0 <= k < |text|
      ensures s[k] == text[k] && text[k] != '\0'
    {
      assert s[..][..|text|][k] == text[k] && text[k] in text;
    }
    n := 0;
    while s[n] != '\0'
      invariant n <= |text|
      decreases |text| - n
    {
      n := n + 1;
    }
  }

  /** reverse: in place, from both ends. */
  method Reverse(s: array<Byte>, ghost text: seq<Byte>)
    requires HoldsText(s[..], text)
    modifies s
    ensures HoldsText(s[..], Reversed(text))
  {
    var n := StrLen(s, text);
    ghost var was := s[..];
    var i, j := 0, n - 1;
    while i < j
      invariant 0 <= i <= n && j == n - 1 - i
      invariant i <= j + 2
      invariant forall k :: 0 <= k < i ==> s[k] == was[n - 1 - k] && s[n - 1 - k] == was[k]
      invariant forall k :: i <= k <= j ==> s[k] == was[k]
      invariant forall k :: n <= k < s.Length ==> s[k] == was[k]
    {
      var c := s[i];
      s[i] := s[j];
      s[j] := c;
      i, j := i + 1, j - 1;
    }
    forall k | 0 <= k < n
      ensures s[k] == Reversed(text)[k]
    {
      assert was[n - 1 - k] == was[..n][n - 1 - k] == text[n - 1 - k];
    }
    assert s[..][..n] == Reversed(text);
    forall c | c in Reversed(text)
      ensures c != '\0'
    {
      var k :| 0 <= k < n && Reversed(text)[k] == c;
      assert text[n - 1 - k] in text;
    }
  }

  // ----- itoa and its kin -----

  /** One digit goes after those put so far, which are the text low backwards. */
  method PutDigit(buffer: array<Byte>, i: nat, d: nat, ghost low: seq<Byte>)
    requires i < buffer.Length && d < 36 && buffer[..i] == Reversed(low)
    modifies buffer
    ensures buffer[..i + 1] == Reversed([Digit(d)] + low)
  {
    DigitIsTableEntry(d);
    buffer[i] := DIGITS[d];
    ReversedAppend(Digit(d), low);
    assert buffer[..i + 1] == Reversed(low) + [Digit(d)];
  }

  /** The digits of what is still to be divided. */
  function Left(n: nat, base: nat): seq<Byte>
    requires 2 <= base <= 35 || (base == 1 && n == 0)
  {
    if n > 0 then Numeral(n, base) else []
  }

  /** One division moves a digit from what is left to what has been put. */
  method TakeDigit(n: nat, base: nat, ghost num: nat, ghost low: seq<Byte>) returns (q: nat, d: nat)
    requires 2 <= base <= 35 || (base == 1 && num == n == 0)
    requires (n == num && low == []) || (n > 0 && Numeral(num, base) == Left(n, base) + low)
    ensures d < base && (base == 1 ==> q == 0) && (n > 0 ==> q < n)
    ensures Numeral(num, base) == Left(q, base) + ([Digit(d)] + low)
  {
    NumeralStep(n, base);
    if base >= 2 {
      Quotient(n, base);
    }
    q, d := n / base, n % base;
  }

  /** The digit loop that all four share: the digits of num, the lowest first. */
  method PutDigits(num: nat, buffer: array<Byte>, base: nat) returns (i: nat)
    requires num < UINT_LIMIT && buffer.Length >= BUFFER
    requires 2 <= base <= 35 || (base == 1 && num == 0)
    modifies buffer
    ensures 0 < i <= 32 && buffer[..i] == Reversed(Numeral(num, base))
  {
    ghost var all := Numeral(num, base);
    assert |all| <= 32 by {
      if base >= 2 {
        WordLength(num, base);
      }
    }
    var n, d := TakeDigit(num, base, num, []);
    PutDigit(buffer, 0, d, []);
    i := 1;
    ghost var low := [Digit(d)] + [];
    while n > 0
      invariant base == 1 ==> n == 0
      invariant all == Left(n, base) + low
      invariant 0 < i == |low| <= 32 && buffer[..i] == Reversed(low)
      decreases n
    {
      n, d := TakeDigit(n, base, num, low);
      PutDigit(buffer, i, d, low);
      low := [Digit(d)] + low;
      i := i + 1;
    }
  }

  function Abs(n: int): nat {
    if n < 0 then -n else n
  }

  /** A numeral with its sign. */
  function Signed(num: int, base: nat): (s: seq<Byte>)
    requires 2 <= base <= 35 || (base == 1 && num == 0)
    ensures '\0' !in s
  {
    if num < 0 then ['-'] + Numeral(-num, base) else Numeral(num, base)
  }

  /** The NUL goes after the n characters of the buffer, which are then turned round. */
  method Finish(buffer: array<Byte>, n: nat, ghost text: seq<Byte>)
    requires n < buffer.Length && n == |text| && buffer[..n] == Reversed(text) && '\0' !in text
    modifies buffer
    ensures HoldsText(buffer[..], text)
  {
    buffer[n] := '\0';
    forall c | c in Reversed(text)
      ensures c != '\0'
    {
      var k :| 0 <= k < n && Reversed(text)[k] == c;
      assert text[n - 1 - k] in text;
    }
    assert buffer[..][..n] == Reversed(text);
    Reverse(buffer, Reversed(text));
    assert Reversed(Reversed(text)) == text;
  }

  predicate BadBase(base: int) {
    base <= 0 || base > 35
  }

  /** itoa; the least int has no negation, and base 1 gets past zero only. */
  method Itoa(num: int, buffer: array<Byte>, base: int)
    requires -INT_LIMIT < num < INT_LIMIT && buffer.Length >= BUFFER && (base == 1 ==> num == 0)
    modifies buffer
    ensures if BadBase(base) then buffer[..] == old(buffer[..]) else HoldsText(buffer[..], Signed(num, base))
  {
    if base <= 0 || base > 35 {
      return;
    }
    var i := PutDigits(Abs(num), buffer, base);
    ghost var numeral := Numeral(Abs(num), base);
    if num < 0 {
      buffer[i] := '-';
      assert buffer[..i + 1] == Reversed(numeral) + ['-'];
      ReversedAppend('-', numeral);
      i := i + 1;
    }
    Finish(buffer, i, Signed(num, base));
  }

  /** utoa, and ultoa. */
  method Utoa(num: nat, buffer: array<Byte>, base: int)
    requires num < UINT_LIMIT && buffer.Length >= BUFFER && (base == 1 ==> num == 0)
    modifies buffer
    ensures if BadBase(base) then buffer[..] == old(buffer[..]) else HoldsText(buffer[..], Numeral(num, base))
  {
    if base <= 0 || base > 35 {
      return;
    }
    var i := PutDigits(num, buffer, base);
    Finish(buffer, i, Numeral(num, base));
  }

  /** ltoa: the sign is noted but never put in front. */
  method Ltoa(num: int, buffer: array<Byte>, base: int)
    requires -INT_LIMIT < num < INT_LIMIT && buffer.Length >= BUFFER && (base == 1 ==> num == 0)
    modifies buffer
    ensures if BadBase(base) then buffer[..] == old(buffer[..]) else HoldsText(buffer[..], Numeral(Abs(num), base))
  {
    if base <= 0 || base > 35 {
      return;
    }
    var i := PutDigits(Abs(num), buffer, base);
    Finish(buffer, i, Numeral(Abs(num), base));
  }

  /** The value of a text with an optional sign. */
  function ParseSigned(s: seq<char>, base: nat): int {
    if s != [] && s[0] == '-' then 0 - Parse(s[1..], base) else Parse(s, base)
  }

  /** What itoa writes reads back as the number. */
  lemma ParseSignedNumeral(num: int, base: nat)
    requires 2 <= base <= 35
    ensures ParseSigned(Signed(num, base), base) == num
  {
    ParseNumeral(Abs(num), base);
    if num < 0 {
      assert Signed(num, base)[1..] == Numeral(Abs(num), base);
    }
  }

  /** What ltoa writes does so exactly for numbers that are not negative. */
  lemma UnsignedNumeralLosesSign(num: int, base: nat)
    requires 2 <= base <= 35
    ensures ParseSigned(Numeral(Abs(num), base), base) == num <==> num >= 0
  {
    var s := Numeral(Abs(num), base);
    ParseNumeral(Abs(num), base);
    assert s[0] in s;
  }
}
