/**
 * k_itoa (src/kernel/lib/klib.c:112-142): digits from a mirrored table, then an
 * in-place reversal. Numbers are never negated, so the least int is no exception.
 */
module Itoa {
  /** C division and remainder, which truncate toward zero. */
  function TruncDiv(a: int, b: int): int
    requires b > 0
  {
    if a >= 0 then a / b else -((-a) / b)
  }

  function TruncMod(a: int, b: int): int
    requires b > 0
  {
    if a >= 0 then a % b else -((-a) % b)
  }

  function Abs(a: int): nat {
    if a >= 0 then a else -a
  }

  predicate GoodBase(base: int) {
    base == 2 || base == 8 || base == 10 || base == 16
  }

  const TABLE := "FEDCBA9876543210123456789ABCDEF"

  /** num2ch: the digit k, positive or negative, at index k + 15. */
  function Mirrored(k: int): char
    requires -15 <= k <= 15
  {
    TABLE[k + 15]
  }

  function DigitChar(d: nat): char
    requires d < 16
  {
    "0123456789ABCDEF"[d]
  }

  lemma MirroredIsDigit(k: int)
    requires -15 <= k <= 15
    ensures Mirrored(k) == DigitChar(Abs(k))
  {
  }

  // ---------------------------------------------------------------- the text

  /** The digits of m, most significant first. */
  function Digits(m: nat, base: nat): (r: string)
    requires GoodBase(base)
    ensures |r| >= 1
    decreases m
  {
    if m < base then [DigitChar(m)] else Digits(m / base, base) + [DigitChar(m % base)]
  }

  /** The digits as the loop produces them, least significant first. */
  function Backwards(m: nat, base: nat): (r: string)
    requires GoodBase(base)
    ensures |r| >= 1
    decreases m
  {
    if m < base then [DigitChar(m)] else [DigitChar(m % base)] + Backwards(m / base, base)
  }

  function Reversed(s: string): (r: string)
    ensures |r| == |s|
  {
    if |s| == 0 then "" else Reversed(s[1..]) + [s[0]]
  }

  lemma {:induction false} ReversedAt(s: string, i: nat)
    requires i < |s|
    ensures Reversed(s)[i] == s[|s| - 1 - i]
    decreases |s|
  {
    if i < |s| - 1 {
      ReversedAt(s[1..], i);
    }
  }

  lemma {:induction false} BackwardsReversed(m: nat, base: nat)
    requires GoodBase(base)
    ensures Reversed(Backwards(m, base)) == Digits(m, base)
    decreases m
  {
    hide DigitChar;
    if m < base {
      assert Reversed("") == "";
      assert Backwards(m, base)[1..] == "";
    } else {
      BackwardsReversed(m / base, base);
      assert Backwards(m, base)[1..] == Backwards(m / base, base);
    }
  }

  /**
   * What k_itoa leaves in the buffer. For a negative number in a base other than ten there
   * is no sign and the first character is left out of the reversal.
   */
  function Text(num: int, base: nat): string
    requires GoodBase(base)
  {
    if num >= 0 then Digits(num, base)
    else if base == 10 then "-" + Digits(-num, base)
    else
      var b := Backwards(-num, base);
      b[..1] + Reversed(b[1..])
  }

  // ---------------------------------------------------------------- reading it back

  function DigitValue(c: char): int {
    if '0' <= c <= '9' then (c - '0') as int else if 'A' <= c <= 'F' then (c - 'A') as int + 10 else 0
  }

  function ParseDigits(s: string, base: nat): int
    decreases |s|
  {
    if |s| == 0 then 0 else ParseDigits(s[..|s| - 1], base) * base + DigitValue(s[|s| - 1])
  }

  function Parse(s: string, base: nat): int {
    if |s| > 0 && s[0] == '-' then -ParseDigits(s[1..], base) else ParseDigits(s, base)
  }

  lemma DigitValueOf(d: nat)
    requires d < 16
    ensures DigitValue(DigitChar(d)) == d && DigitChar(d) != '-' && (DigitChar(d) == '0' <==> d == 0)
  {
  }

  lemma {:induction false} ParseOfDigits(m: nat, base: nat)
    requires GoodBase(base)
    ensures ParseDigits(Digits(m, base), base) == m
    decreases m
  {
    hide DigitValue, DigitChar;
    if m < base {
      DigitValueOf(m);
      assert Digits(m, base)[..0] == "";
    } else {
      DigitValueOf(m % base);
      ParseOfDigits(m / base, base);
      assert Digits(m, base)[..|Digits(m, base)| - 1] == Digits(m / base, base);
      DivMod(m, base);
    }
  }

  lemma DivMod(m: nat, base: nat)
    requires base > 0
    ensures (m / base) * base + m % base == m
  {
  }

  /** The first digit is not a sign, and it is zero only for zero itself. */
  lemma {:induction false} FirstDigit(m: nat, base: nat)
    requires GoodBase(base)
    ensures Digits(m, base)[0] != '-' && (Digits(m, base)[0] == '0' ==> m == 0 && Digits(m, base) == "0")
    decreases m
  {
    hide DigitChar;
    if m < base {
      DigitValueOf(m);
    } else {
      FirstDigit(m / base, base);
    }
  }

  lemma {:induction false} NonNegative(s: string, base: nat)
    ensures ParseDigits(s, base) >= 0
    decreases |s|
  {
    if |s| > 0 {
      NonNegative(s[..|s| - 1], base);
      Product(ParseDigits(s[..|s| - 1], base), base);
    }
  }

  lemma Product(a: int, b: nat)
    requires a >= 0
    ensures a * b >= 0
  {
  }

  /** No text of k_itoa starts with a sign unless it printed one. */
  lemma NoSign(num: int, base: nat)
    requires GoodBase(base) && num < 0 && base != 10
    ensures Text(num, base)[0] != '-'
  {
  }

  /**
   * Printing and parsing: the text denotes the number if and only if the number is
   * nonnegative or the base is ten. For the least int too.
   */
  lemma PrintThenParse(num: int, base: nat)
    requires GoodBase(base)
    ensures Parse(Text(num, base), base) == num <==> num >= 0 || base == 10
  {
    hide ParseDigits, Digits, Backwards;
    if num >= 0 {
      ParseOfDigits(num, base);
      FirstDigit(num, base);
    } else if base == 10 {
      ParseOfDigits(-num, base);
      assert Text(num, base)[1..] == Digits(-num, base);
    } else {
      NoSign(num, base);
      NonNegative(Text(num, base), base);
    }
  }

  /** -18 in base 16 prints as the text of 33: no sign, and digits in the wrong order. */
  lemma NegativeHexIsWrong()
    ensures Text(-18, 16) == "21" && Digits(18, 16) == "12"
  {
  }

  /** No leading zero, except for zero itself. */
  lemma NoLeadingZero(num: int, base: nat)
    requires GoodBase(base) && (num >= 0 || base == 10)
    ensures var digits := if num < 0 then Text(num, base)[1..] else Text(num, base);
            |digits| >= 1 && (digits[0] == '0' ==> num == 0 && digits == "0")
  {
    hide Digits;
    FirstDigit(Abs(num), base);
    if num < 0 {
      assert Text(num, base)[1..] == Digits(-num, base);
    }
  }

  // ---------------------------------------------------------------- the code

  lemma TruncFacts(a: int, b: nat)
    requires GoodBase(b)
    ensures Abs(TruncDiv(a, b)) == Abs(a) / b && Abs(TruncMod(a, b)) == Abs(a) % b && -15 <= TruncMod(a, b) <= 15
    ensures TruncDiv(a, b) == 0 <==> Abs(a) < b
  {
  }

  lemma BackwardsStep(m: nat, base: nat)
    requires GoodBase(base)
    ensures m < base ==> Backwards(m, base) == [DigitChar(m % base)]
    ensures m >= base ==> Backwards(m, base) == [DigitChar(m % base)] + Backwards(m / base, base)
  {
  }

  /** The digit loop: the digits of num, least significant first, from position p on. */
  method PutDigits(buf: array<char>, start: nat, num: int, base: nat) returns (p: nat)
    requires GoodBase(base) && start + |Backwards(Abs(num), base)| < buf.Length
    modifies buf
    ensures p == start + |Backwards(Abs(num), base)|
    ensures buf[..p] == old(buf[..start]) + Backwards(Abs(num), base)
  {
    hide Backwards, DigitChar;
    ghost var all := Backwards(Abs(num), base);
    var n, more := num, true;
    p := start;
    while more
      invariant start <= p <= start + |all|
      invariant buf[..p] + (if more then Backwards(Abs(n), base) else "") == old(buf[..start]) + all
      invariant more ==> p + |Backwards(Abs(n), base)| == start + |all|
      invariant !more ==> p == start + |all|
      decreases more, Abs(n)
    {
      TruncFacts(n, base);
      BackwardsStep(Abs(n), base);
      MirroredIsDigit(TruncMod(n, base));
      ghost var rest := if Abs(n) < base then "" else Backwards(Abs(n) / base, base);
      buf[p] := Mirrored(TruncMod(n, base));
      assert buf[..p + 1] + rest == buf[..p] + ([buf[p]] + rest);
      p := p + 1;
      n := TruncDiv(n, base);
      more := n != 0;
    }
  }

  /** The swapping loop: buf[lo..hi] is reversed, the rest stays. */
  method ReverseRange(buf: array<char>, lo: nat, hi: nat)
    requires lo <= hi <= buf.Length
    modifies buf
    ensures buf[..] == old(buf[..lo]) + Reversed(old(buf[lo..hi])) + old(buf[hi..])
  {
    hide Reversed;
    ghost var all := buf[..];
    var start, p := lo, hi - 1;
    while start < p
      invariant lo <= start && p < hi && start <= p + 1 && start - lo == hi - 1 - p
      invariant forall i :: 0 <= i < buf.Length && (start <= i <= p || i < lo || i >= hi) ==> buf[i] == all[i]
      invariant forall i :: lo <= i < hi && (i < start || p < i) ==> buf[i] == all[lo + hi - 1 - i]
    {
      buf[start], buf[p] := buf[p], buf[start];
      p := p - 1;
      start := start + 1;
    }
    ghost var mid := all[lo..hi];
    assert old(buf[lo..hi]) == mid && old(buf[..lo]) == all[..lo] && old(buf[hi..]) == all[hi..];
    forall i | lo <= i < hi
      ensures buf[i] == Reversed(mid)[i - lo]
    {
      ReversedAt(mid, i - lo);
    }
    ghost var want := all[..lo] + Reversed(mid) + all[hi..];
    assert |want| == buf.Length;
    forall i | 0 <= i < buf.Length
      ensures buf[i] == want[i]
    {
      if i < lo {
        assert want[i] == all[i];
      } else if i < hi {
        assert want[i] == Reversed(mid)[i - lo];
      } else {
        assert want[i] == all[hi..][i - hi];
      }
    }
    assert buf[..] == want;
  }

  /** k_itoa: the text and its NUL, or an empty text for another base. */
  method KItoa(buf: array<char>, num: int, base: int)
    requires -0x8000_0000 <= num < 0x8000_0000 && buf.Length > 0
    requires GoodBase(base) ==> |Text(num, base)| < buf.Length
    modifies buf
    ensures GoodBase(base) ==> buf[..|Text(num, base)|] == Text(num, base) && buf[|Text(num, base)|] == '\0'
    ensures !GoodBase(base) ==> buf[0] == '\0'
  {
    hide Backwards, Digits, Reversed, Text, Abs;
    if base != 2 && base != 8 && base != 10 && base != 16 {
      buf[0] := '\0';
      return;
    }
    ghost var b := Backwards(Abs(num), base);
    ghost var sign := if num < 0 && base == 10 then "-" else "";
    var start := if num > 0 then 0 else 1;
    TextShape(num, base, sign, start);
    var p := 0;
    if num < 0 && base == 10 {
      buf[0] := '-';
      p := 1;
    }
    assert buf[..p] == sign;
    p := PutDigits(buf, p, num, base);
    buf[p] := '\0';
    assert buf[..p] == sign + b;
    assert buf[start..p] == (sign + b)[start..] && buf[..start] == (sign + b)[..start];
    ReverseRange(buf, start, p);
  }

  /** How the reversed range makes the text. */
  lemma TextShape(num: int, base: nat, sign: string, start: nat)
    requires GoodBase(base) && sign == (if num < 0 && base == 10 then "-" else "") && start == if num > 0 then 0 else 1
    ensures var b := sign + Backwards(Abs(num), base);
            start <= |b| && Text(num, base) == b[..start] + Reversed(b[start..])
  {
    hide Backwards, Digits;
    BackwardsReversed(Abs(num), base);
    var b := sign + Backwards(Abs(num), base);
    if num > 0 {
      assert b[..0] == "" && b[0..] == Backwards(num, base);
    } else if num == 0 {
      ZeroText(base);
      assert b == "0" && b[..1] == "0" && b[1..] == "" && Reversed("") == "";
    } else if base == 10 {
      assert b[..1] == "-" && b[1..] == Backwards(-num, base);
    } else {
      assert b == Backwards(-num, base);
    }
  }

  lemma ZeroText(base: nat)
    requires GoodBase(base)
    ensures Backwards(0, base) == "0" && Digits(0, base) == "0"
  {
  }
}
