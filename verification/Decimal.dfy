/** Decimal numerals as texts, most significant digit first, and what they are worth. */
module Decimal {

  function Pow10(n: nat): (p: nat)
    ensures p >= 1
  {
    if n == 0 then 1 else 10 * Pow10(n - 1)
  }

  predicate IsDigit(c: char) {
    '0' <= c <= '9'
  }

  predicate AllDigits(s: string) {
    forall i :: 0 <= i < |s| ==> IsDigit(s[i])
  }

  /** `c - '0'`; also used on cells that are not digits for the moment. */
  function Digit(c: char): int {
    c as int - '0' as int
  }

  function DigitChar(d: nat): (c: char)
    requires d < 10
    ensures IsDigit(c) && Digit(c) == d
  {
    ('0' as int + d) as char
  }

  /** The number a text denotes. */
  function Val(s: string): int {
    ValTo(s, |s|)
  }

  /** The number the first n characters denote. */
  function ValTo(s: string, n: nat): int
    requires n <= |s|
  {
    if n == 0 then 0 else 10 * ValTo(s, n - 1) + Digit(s[n - 1])
  }

  /** A numeral without superfluous zeros in front. */
  predicate Canonical(s: string) {
    AllDigits(s) && |s| > 0 && (|s| > 1 ==> s[0] != '0')
  }

  /** The canonical numeral of n. */
  function Text(n: nat): string {
    if n < 10 then [DigitChar(n)] else Text(n / 10) + [DigitChar(n % 10)]
  }

  function SignedText(z: int): string {
    if z < 0 then "-" + Text(-z) else Text(z)
  }

  /** The low `len` digits of n, as exactly `len` characters. */
  function Pad(n: nat, len: nat): (s: string)
    ensures |s| == len && AllDigits(s)
  {
    if len == 0 then "" else Pad(n / 10, len - 1) + [DigitChar(n % 10)]
  }

  function DropZeros(s: string): (t: string)
    ensures |t| <= |s| && (|t| > 0 ==> t[0] != '0')
  {
    if |s| > 0 && s[0] == '0' then DropZeros(s[1..]) else s
  }

  /** C's strcmp on texts: the sign of the first difference, the end counting as smallest. */
  function StrCmp(s: string, t: string): int {
    if |s| == 0 then (if |t| == 0 then 0 else -1)
    else if |t| == 0 then 1
    else if s[0] != t[0] then (if s[0] < t[0] then -1 else 1)
    else StrCmp(s[1..], t[1..])
  }

  function Max(a: nat, b: nat): nat {
    if a < b then b else a
  }

  function Abs(z: int): nat {
    if z < 0 then -z else z
  }

  /** a * 10^n, in a form that keeps the proofs linear. */
  function Scale(a: int, n: nat): int {
    if n == 0 then a else 10 * Scale(a, n - 1)
  }

  lemma {:induction false} ScaleIs(a: int, n: nat)
    ensures Scale(a, n) == a * Pow10(n)
  {
    if n > 0 {
      ScaleIs(a, n - 1);
      assert a * Pow10(n) == 10 * (a * Pow10(n - 1));
    }
  }

  lemma {:induction false} ScaleSum(total: int, a: int, b: int, n: nat)
    requires total == a + b
    ensures Scale(total, n) == Scale(a, n) + Scale(b, n)
  {
    if n > 0 { ScaleSum(total, a, b, n - 1); }
  }

  lemma {:induction false} ScaleMul(k: int, a: int, n: nat)
    ensures Scale(k * a, n) == k * Scale(a, n)
  {
    ScaleIs(k * a, n);
    ScaleIs(a, n);
    assert (k * a) * Pow10(n) == k * (a * Pow10(n));
  }

  lemma {:induction false} ScaleMono(a: int, b: int, n: nat)
    requires a <= b
    ensures Scale(a, n) <= Scale(b, n)
  {
    if n > 0 { ScaleMono(a, b, n - 1); }
  }

  lemma {:induction false} ScaleTen(ten: int, a: int, n: nat)
    requires ten == 10 * a
    ensures Scale(ten, n) == Scale(a, n + 1)
  {
    if n > 0 { ScaleTen(ten, a, n - 1); }
  }

  lemma {:induction false} ScaleOne(n: nat)
    ensures Scale(1, n) == Pow10(n) && Scale(0, n) == 0
  {
    if n > 0 { ScaleOne(n - 1); }
  }

  lemma {:induction false} ValToPrefix(s: string, t: string, n: nat)
    requires n <= |s| && n <= |t| && forall i :: 0 <= i < n ==> s[i] == t[i]
    ensures ValTo(s, n) == ValTo(t, n)
  {
    if n > 0 { ValToPrefix(s, t, n - 1); }
  }

  /** The last digit counts once, those before it tenfold. */
  lemma ValSnoc(s: string)
    requires |s| > 0
    ensures Val(s) == 10 * Val(s[..|s| - 1]) + Digit(s[|s| - 1])
  {
    ValToPrefix(s, s[..|s| - 1], |s| - 1);
  }

  lemma {:induction false} ValToAppend(s: string, t: string, n: nat)
    requires n <= |t|
    ensures ValTo(s + t, |s| + n) == Scale(Val(s), n) + ValTo(t, n)
  {
    if n == 0 {
      ValToPrefix(s + t, s, |s|);
    } else {
      ValToAppend(s, t, n - 1);
    }
  }

  lemma ValAppend(s: string, t: string)
    ensures Val(s + t) == Scale(Val(s), |t|) + Val(t)
  {
    ValToAppend(s, t, |t|);
  }

  lemma ValOne(c: char)
    ensures Val([c]) == Digit(c)
  {
    ValSnoc([c]);
  }

  lemma ValPrepend(c: char, s: string)
    ensures Val([c] + s) == Scale(Digit(c), |s|) + Val(s)
  {
    ValOne(c);
    ValAppend([c], s);
  }

  lemma ValCons(s: string)
    requires |s| > 0
    ensures Val(s) == Scale(Digit(s[0]), |s| - 1) + Val(s[1..])
  {
    assert s == [s[0]] + s[1..];
    ValPrepend(s[0], s[1..]);
  }

  lemma {:induction false} ValToBound(s: string, n: nat)
    requires AllDigits(s) && n <= |s|
    ensures 0 <= ValTo(s, n) < Pow10(n)
  {
    if n > 0 { ValToBound(s, n - 1); }
  }

  lemma ValBound(s: string)
    requires AllDigits(s)
    ensures 0 <= Val(s) < Pow10(|s|)
  {
    ValToBound(s, |s|);
  }

  /** A numeral with a nonzero first digit reaches the power of ten of its length. */
  lemma ValLower(s: string)
    requires AllDigits(s) && |s| > 0 && s[0] != '0'
    ensures Pow10(|s| - 1) <= Val(s) < Pow10(|s|)
  {
    ValCons(s);
    ValBound(s[1..]);
    ValBound(s);
    ScaleOne(|s| - 1);
    ScaleMono(1, Digit(s[0]), |s| - 1);
  }

  lemma {:induction false} Pow10Mono(m: nat, n: nat)
    requires m <= n
    ensures Pow10(m) <= Pow10(n)
  {
    if m < n { Pow10Mono(m, n - 1); }
  }

  /** A digit text is determined by its length and its value. */
  lemma {:induction false} PadIs(s: string)
    requires AllDigits(s)
    ensures Val(s) >= 0 && s == Pad(Val(s), |s|)
  {
    ValBound(s);
    if |s| > 0 {
      var m := |s| - 1;
      ValSnoc(s);
      ValBound(s[..m]);
      PadIs(s[..m]);
      assert Val(s) / 10 == Val(s[..m]) && Val(s) % 10 == Digit(s[m]);
      assert s == s[..m] + [s[m]];
    }
  }

  lemma {:induction false} PadVal(n: nat, len: nat)
    requires n < Pow10(len)
    ensures Val(Pad(n, len)) == n
  {
    if len > 0 {
      PadVal(n / 10, len - 1);
      var s := Pad(n, len);
      ValSnoc(s);
      assert s[..len - 1] == Pad(n / 10, len - 1);
    }
  }

  lemma {:induction false} TextCanonical(n: nat)
    ensures Canonical(Text(n)) && Val(Text(n)) == n
    ensures n > 0 ==> Text(n)[0] != '0'
  {
    if n >= 10 {
      TextCanonical(n / 10);
      var s := Text(n);
      ValSnoc(s);
      assert s[..|s| - 1] == Text(n / 10);
    } else {
      ValOne(DigitChar(n));
    }
  }

  /** Canonical numerals are unique. */
  lemma {:induction false} CanonicalUnique(s: string)
    requires Canonical(s)
    ensures Val(s) >= 0 && s == Text(Val(s))
  {
    ValBound(s);
    var m := |s| - 1;
    ValSnoc(s);
    if m > 0 {
      ValLower(s);
      ValBound(s[..m]);
      CanonicalUnique(s[..m]);
      Pow10Mono(1, m);
      assert Val(s) / 10 == Val(s[..m]) && Val(s) % 10 == Digit(s[m]);
      assert s == s[..m] + [s[m]];
    } else {
      assert Val(s[..m]) == 0;
    }
  }

  /** Stripping zeros leaves the canonical numeral, or nothing at all for zero. */
  lemma {:induction false} DropZerosText(s: string)
    requires AllDigits(s)
    ensures Val(s) >= 0
    ensures DropZeros(s) == if Val(s) == 0 then "" else Text(Val(s))
  {
    ValBound(s);
    if |s| > 0 {
      if s[0] == '0' {
        ValCons(s);
        ScaleOne(|s| - 1);
        DropZerosText(s[1..]);
      } else {
        ValLower(s);
        CanonicalUnique(s);
      }
    }
  }

  /** The first digit decides between digit texts of one length. */
  lemma FirstDigitDecides(s: string, t: string)
    requires AllDigits(s) && AllDigits(t) && |s| == |t| > 0 && s[0] < t[0]
    ensures Val(s) < Val(t)
  {
    ValCons(s);
    ValCons(t);
    ValBound(s[1..]);
    ValBound(t[1..]);
    ScaleOne(|s| - 1);
    ScaleSum(Digit(s[0]) + 1, Digit(s[0]), 1, |s| - 1);
    ScaleMono(Digit(s[0]) + 1, Digit(t[0]), |s| - 1);
  }

  /** Between digit texts of one length, strcmp is the numeric comparison. */
  lemma {:induction false} StrCmpNumeric(s: string, t: string)
    requires AllDigits(s) && AllDigits(t) && |s| == |t|
    ensures StrCmp(s, t) < 0 <==> Val(s) < Val(t)
    ensures StrCmp(s, t) == 0 <==> Val(s) == Val(t)
  {
    if |s| > 0 {
      if s[0] < t[0] {
        FirstDigitDecides(s, t);
      } else if t[0] < s[0] {
        FirstDigitDecides(t, s);
      } else {
        StrCmpNumeric(s[1..], t[1..]);
        ValCons(s);
        ValCons(t);
      }
    }
  }

  /** The order the calculator tests by (length first, then strcmp) is the numeric order. */
  lemma LengthThenStrCmp(s: string, t: string)
    requires Canonical(s) && Canonical(t)
    ensures (|s| < |t| || (|s| == |t| && StrCmp(s, t) < 0)) <==> Val(s) < Val(t)
  {
    ValBound(s);
    ValBound(t);
    if |s| == |t| {
      StrCmpNumeric(s, t);
    } else if |s| < |t| {
      ValLower(t);
      Pow10Mono(|s|, |t| - 1);
    } else {
      ValLower(s);
      Pow10Mono(|t|, |s| - 1);
    }
  }

  /** A result buffer with every cell set to '0'. */
  method ZeroCells(n: nat) returns (cells: array<char>)
    ensures fresh(cells) && cells.Length == n
    ensures forall i :: 0 <= i < n ==> cells[i] == '0'
  {
    cells := new char[n];
    var k := 0;
    while k < n
      invariant 0 <= k <= n
      invariant forall i :: 0 <= i < k ==> cells[i] == '0'
    {
      cells[k] := '0';
      k := k + 1;
    }
  }
}
