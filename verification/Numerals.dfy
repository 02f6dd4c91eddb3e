/** C strings in a buffer, and the calculator's parser (ExtractData) and printer (AdjustmentData) of signed numerals. */
module Numerals {
  import opened Decimal

  /** A `char *`: a place in the buffer, or the literal "0". */
  datatype Ptr = At(pos: nat) | ZeroLiteral

  /** The cell at i; the end of the buffer acts as NUL. */
  function Read(s: string, i: nat): char {
    if i < |s| then s[i] else '\0'
  }

  /** The C string that starts at p. */
  function CStr(s: string, p: nat): string
    decreases |s| - p
  {
    if Read(s, p) == '\0' then "" else [s[p]] + CStr(s, p + 1)
  }

  function Deref(s: string, r: Ptr): string {
    match r
    case At(p) => CStr(s, p)
    case ZeroLiteral => "0"
  }

  predicate IsSign(c: char) {
    c == '+' || c == '-'
  }

  /** The longest digit prefix. */
  function LeadingDigits(s: string): (t: string)
    ensures |t| <= |s| && AllDigits(t)
  {
    if |s| > 0 && IsDigit(s[0]) then [s[0]] + LeadingDigits(s[1..]) else ""
  }

  /** The operand starts like a number. */
  predicate LegalStart(v: string) {
    |v| > 0 && (IsSign(v[0]) || IsDigit(v[0]))
  }

  /** What follows the optional sign; nothing when the operand does not start like a number. */
  function Body(v: string): (b: string)
    ensures |b| <= |v|
  {
    if |v| > 0 && IsSign(v[0]) then v[1..] else if |v| > 0 && IsDigit(v[0]) then v else ""
  }

  function SignOf(v: string): char {
    if |v| == 0 then '\0' else if IsDigit(v[0]) then '+' else v[0]
  }

  function Magnitude(v: string): nat {
    ValBound(LeadingDigits(Body(v)));
    Val(LeadingDigits(Body(v)))
  }

  /** The number an operand stands for. */
  function Number(v: string): int {
    var m: int := Magnitude(v);
    if SignOf(v) == '-' then -m else m
  }

  /** How much of an operand ExtractData keeps: an optional sign and the digits up to the first junk. */
  function KeptLength(v: string): (n: nat)
    ensures n <= |v|
  {
    if LegalStart(v) then |v| - |Body(v)| + |LeadingDigits(Body(v))| else |v|
  }

  lemma {:induction false} CStrIs(s: string, p: nat, e: nat)
    requires p <= e <= |s| && Read(s, e) == '\0' && forall i :: p <= i < e ==> s[i] != '\0'
    ensures CStr(s, p) == s[p..e]
    decreases e - p
  {
    if p < e { CStrIs(s, p + 1, e); }
  }

  /** Where a C string lies in its buffer. */
  lemma {:induction false} CStrLies(s: string, p: nat)
    requires p <= |s|
    ensures p + |CStr(s, p)| <= |s| && CStr(s, p) == s[p..p + |CStr(s, p)|]
    ensures Read(s, p + |CStr(s, p)|) == '\0'
    ensures forall i :: p <= i < p + |CStr(s, p)| ==> s[i] != '\0'
    decreases |s| - p
  {
    if Read(s, p) != '\0' { CStrLies(s, p + 1); }
  }

  /** A string is not affected by changes behind its end. */
  lemma SameString(s: string, t: string, p: nat, j: nat)
    requires |s| == |t| && p + |CStr(s, p)| <= j <= |s| && p <= j
    requires forall i :: p <= i < |s| && i <= j ==> s[i] == t[i]
    ensures CStr(t, p) == CStr(s, p)
  {
    var e := p + |CStr(s, p)|;
    CStrLies(s, p);
    CStrIs(t, p, e);
    assert t[p..e] == s[p..e];
  }

  lemma {:induction false} LeadingDigitsStop(s: string, n: nat)
    requires n <= |s| && AllDigits(s[..n]) && (n < |s| ==> !IsDigit(s[n]))
    ensures LeadingDigits(s) == s[..n]
  {
    if n > 0 {
      assert IsDigit(s[..n][0]);
      assert s[1..][..n - 1] == s[..n][1..];
      LeadingDigitsStop(s[1..], n - 1);
    }
  }

  lemma {:induction false} DropZerosStop(s: string, n: nat)
    requires n <= |s| && (forall i :: 0 <= i < n ==> s[i] == '0') && (n < |s| ==> s[n] != '0')
    ensures DropZeros(s) == s[n..]
  {
    if n > 0 {
      DropZerosStop(s[1..], n - 1);
      assert s[1..][n - 1..] == s[n..];
    }
  }

  lemma {:induction false} DropZerosSuffix(s: string)
    ensures var n := |s| - |DropZeros(s)|; s[n..] == DropZeros(s) && forall i :: 0 <= i < n ==> s[i] == '0'
  {
    if |s| > 0 && s[0] == '0' { DropZerosSuffix(s[1..]); }
  }

  /** The buffer after ExtractData at p: the first junk character after the digits has become NUL. */
  function Truncate(s: string, p: nat): string {
    var v := CStr(s, p);
    if KeptLength(v) < |v| && p + |v| <= |s| then s[p + KeptLength(v) := '\0'] else s
  }

  /** What ExtractData returns: the first significant digit, or the literal. */
  function Extracted(s: string, p: nat): Ptr {
    var v := CStr(s, p);
    var digits := LeadingDigits(Body(v));
    if DropZeros(digits) == "" then ZeroLiteral else At(p + KeptLength(v) - |DropZeros(digits)|)
  }

  /** ExtractData at p: sign and digits of the operand, which is cut off at the first junk character. */
  method ExtractData(a: array<char>, p: nat, sybom: char) returns (r: Ptr, sybom': char)
    requires p <= a.Length && sybom == Read(a[..], p)
    modifies a
    ensures sybom' == SignOf(CStr(old(a[..]), p))
    ensures r == Extracted(old(a[..]), p)
    ensures a[..] == Truncate(old(a[..]), p)
  {
    ghost var s, end := a[..], p + |CStr(a[..], p)|;
    CStrLies(s, p);
    var data := p;
    sybom' := sybom;
    if sybom == '+' || sybom == '-' {
      data := data + 1;
    } else if '0' <= sybom <= '9' {
      sybom' := '+';
    } else {
      return ZeroLiteral, sybom;
    }
    ghost var q := data;
    while data < a.Length && a[data] == '0'
      invariant q <= data <= end
      invariant forall i :: q <= i < data ==> s[i] == '0'
    {
      data := data + 1;
    }
    var tmp := data;
    while tmp < a.Length && a[tmp] != '\0'
      invariant data <= tmp <= end && a[..] == s
      invariant forall i :: data <= i < tmp ==> IsDigit(s[i])
    {
      if a[tmp] < '0' || a[tmp] > '9' {
        a[tmp] := '\0';
        break;
      }
      tmp := tmp + 1;
    }
    OperandCut(s, p, q, data, tmp, a[..]);
    if data == a.Length || a[data] == '\0' {
      return ZeroLiteral, sybom';
    }
    return At(data), sybom';
  }

  /** A sign or none, zeros, digits, then junk that was cut or the end: what ExtractData has done and returns. */
  lemma OperandCut(s: string, p: nat, q: nat, data: nat, tmp: nat, s': string)
    requires p <= |s| && LegalStart(CStr(s, p))
    requires var end := p + |CStr(s, p)|;
             && q == (if IsSign(Read(s, p)) then p + 1 else p) && q <= data <= tmp <= end <= |s|
             && (data < end ==> s[data] != '0') && (tmp < end ==> !IsDigit(s[tmp]))
             && s' == if tmp < end then s[tmp := '\0'] else s
    requires (forall i :: q <= i < data ==> s[i] == '0') && (forall i :: data <= i < tmp ==> IsDigit(s[i]))
    ensures s' == Truncate(s, p)
    ensures Extracted(s, p) == if data == tmp then ZeroLiteral else At(data)
  {
    var v := CStr(s, p);
    var end := p + |v|;
    CStrLies(s, p);
    assert Body(v) == s[q..end];
    DigitsOf(s, q, end, data, tmp);
    assert |LeadingDigits(Body(v))| == tmp - q;
    assert KeptLength(v) == tmp - p;
    assert |DropZeros(LeadingDigits(Body(v)))| == tmp - data;
  }

  /** Zeros, then digits, then something else or the end: the digits and the significant ones of a text. */
  lemma DigitsOf(s: string, q: nat, end: nat, data: nat, tmp: nat)
    requires q <= data <= tmp <= end <= |s|
    requires (forall i :: q <= i < data ==> s[i] == '0') && (forall i :: data <= i < tmp ==> IsDigit(s[i]))
    requires (data < end ==> s[data] != '0') && (tmp < end ==> !IsDigit(s[tmp]))
    ensures LeadingDigits(s[q..end]) == s[q..tmp] && DropZeros(s[q..tmp]) == s[data..tmp]
  {
    assert s[q..end][..tmp - q] == s[q..tmp];
    LeadingDigitsStop(s[q..end], tmp - q);
    ZerosPassed(s, q, tmp, data);
  }

  /** Without the sign. */
  function Unsigned(v: string): (b: string)
    ensures |b| <= |v|
  {
    if |v| > 0 && IsSign(v[0]) then v[1..] else v
  }

  /** Without sign and superfluous zeros. */
  function Significant(v: string): (b: string)
    ensures |b| <= |v|
  {
    DropZeros(Unsigned(v))
  }

  predicate Negative(v: string) {
    |v| > 0 && v[0] == '-'
  }

  /** The text AdjustmentData prints for v: no superfluous zeros, no plus, "0" when nothing else is left. */
  function Adjusted(v: string): string {
    if Significant(v) == "" then "0" else if Negative(v) then "-" + Significant(v) else Significant(v)
  }

  /** Where the significant characters of the string at p start. */
  function SignificantAt(s: string, p: nat): nat {
    p + |CStr(s, p)| - |Significant(CStr(s, p))|
  }

  /** AdjustmentData may write the minus once more, just before the significant characters. */
  function AdjustedBuffer(s: string, p: nat): string {
    var v, start := CStr(s, p), SignificantAt(s, p);
    if Significant(v) != "" && Negative(v) && 0 < start <= |s| then s[start - 1 := '-'] else s
  }

  function AdjustedPtr(s: string, p: nat): Ptr {
    var v, start := CStr(s, p), SignificantAt(s, p);
    if Significant(v) == "" then ZeroLiteral else if Negative(v) && start > 0 then At(start - 1) else At(start)
  }

  /** AdjustmentData at p. */
  method AdjustmentData(a: array<char>, p: nat) returns (r: Ptr)
    requires p <= a.Length
    modifies a
    ensures r == AdjustedPtr(old(a[..]), p) && a[..] == AdjustedBuffer(old(a[..]), p)
  {
    ghost var s, v := a[..], CStr(a[..], p);
    CStrLies(s, p);
    var data := p;
    var sybom := if p < a.Length then a[p] else '\0';
    if sybom == '-' || sybom == '+' {
      data := data + 1;
    }
    ghost var q, end := data, p + |v|;
    while data < a.Length && a[data] == '0'
      invariant q <= data <= end
      invariant forall i :: q <= i < data ==> s[i] == '0'
    {
      data := data + 1;
    }
    TextAdjusted(s, p, q, data);
    if data == a.Length || a[data] == '\0' {
      return ZeroLiteral;
    }
    if sybom == '-' {
      a[data - 1] := '-';
      return At(data - 1);
    }
    return At(data);
  }

  /** A sign or none, zeros, then something else or the end: what AdjustmentData has done and returns. */
  lemma TextAdjusted(s: string, p: nat, q: nat, data: nat)
    requires p <= |s| && q == if IsSign(Read(s, p)) then p + 1 else p
    requires q <= data <= p + |CStr(s, p)| <= |s| && forall i :: q <= i < data ==> s[i] == '0'
    requires data < p + |CStr(s, p)| ==> s[data] != '0'
    ensures SignificantAt(s, p) == data && (Significant(CStr(s, p)) == "" <==> data == p + |CStr(s, p)|)
    ensures Negative(CStr(s, p)) <==> Read(s, p) == '-'
  {
    hide CStr, DropZeros;
    var v := CStr(s, p);
    var end := p + |v|;
    CStrLies(s, p);
    SignPassed(s, p, end, v);
    ZerosPassed(s, q, end, data);
    assert |Significant(v)| == end - data;
  }

  lemma SignPassed(s: string, p: nat, end: nat, v: string)
    requires p <= end <= |s| && v == s[p..end] && Read(s, end) == '\0'
    ensures Negative(v) <==> Read(s, p) == '-'
    ensures (if IsSign(Read(s, p)) then p + 1 else p) <= end
    ensures Unsigned(v) == s[if IsSign(Read(s, p)) then p + 1 else p..end]
  {
    if p < end { assert v[0] == s[p]; }
  }

  lemma ZerosPassed(s: string, q: nat, end: nat, data: nat)
    requires q <= data <= end <= |s| && (forall i :: q <= i < data ==> s[i] == '0') && (data < end ==> s[data] != '0')
    ensures DropZeros(s[q..end]) == s[data..end]
  {
    hide DropZeros;
    var t := s[q..end];
    forall i | 0 <= i < data - q ensures t[i] == '0' { assert t[i] == s[q + i]; }
    if data < end { assert t[data - q] == s[data]; }
    DropZerosStop(t, data - q);
    assert t[data - q..] == s[data..end];
  }

  lemma SignificantLies(s: string, p: nat)
    requires p <= |s|
    ensures var end, start := p + |CStr(s, p)|, SignificantAt(s, p);
            && p <= start <= end <= |s| && s[start..end] == Significant(CStr(s, p)) && Read(s, end) == '\0'
            && (forall i :: p <= i < end ==> s[i] != '\0')
            && (Negative(CStr(s, p)) ==> p < start)
  {
    var v := CStr(s, p);
    var end := p + |v|;
    CStrLies(s, p);
    DropZerosSuffix(Unsigned(v));
    var n := |v| - |Significant(v)|;
    assert v[n..] == Significant(v) by {
      DropDrop(v, |v| - |Unsigned(v)|, |Unsigned(v)| - |Significant(v)|);
    }
    assert s[p + n..end] == s[p..end][n..];
  }

  /** The returned place holds the adjusted text. */
  lemma AdjustedReads(s: string, p: nat)
    requires p <= |s|
    ensures Deref(AdjustedBuffer(s, p), AdjustedPtr(s, p)) == Adjusted(CStr(s, p))
  {
    hide CStr, Significant, SignificantAt, Negative, Read, Unsigned;
    var v := CStr(s, p);
    var end, start := p + |v|, SignificantAt(s, p);
    SignificantLies(s, p);
    if Significant(v) == "" {
      assert AdjustedPtr(s, p) == ZeroLiteral;
    } else if Negative(v) {
      assert AdjustedPtr(s, p) == At(start - 1) && AdjustedBuffer(s, p) == s[start - 1 := '-'];
      MinusWritten(s, start, end);
    } else {
      assert AdjustedPtr(s, p) == At(start) && AdjustedBuffer(s, p) == s;
      CStrIs(s, start, end);
    }
  }

  lemma MinusWritten(s: string, start: nat, end: nat)
    requires 0 < start <= end <= |s| && Read(s, end) == '\0' && forall i :: start <= i < end ==> s[i] != '\0'
    ensures CStr(s[start - 1 := '-'], start - 1) == "-" + s[start..end]
  {
    var t := s[start - 1 := '-'];
    CStrIs(t, start - 1, end);
    assert t[start - 1..end] == "-" + s[start..end];
  }

  /** A numeral as users write it: an optional sign and digits. */
  predicate IsNumeral(v: string) {
    AllDigits(Unsigned(v))
  }

  lemma {:induction false} LeadingDigitsAll(s: string)
    requires AllDigits(s)
    ensures LeadingDigits(s) == s
  {
    assert s[..|s|] == s;
    LeadingDigitsStop(s, |s|);
  }

  /** AdjustmentData prints every numeral canonically, with its signed value. */
  lemma PrintsNumeral(v: string)
    requires IsNumeral(v)
    ensures Adjusted(v) == SignedText(Number(v))
  {
    assert |v| > 0 && !IsSign(v[0]) ==> IsDigit(Unsigned(v)[0]);
    assert Unsigned(v) == Body(v);
    LeadingDigitsAll(Body(v));
    DropZerosText(Body(v));
    assert Significant(v) == DropZeros(Body(v)) && Magnitude(v) == Val(Body(v));
    assert Text(0) == "0";
  }

  /** A canonical text is a numeral that stands for its number, whatever that is. */
  lemma SignedTextIsNumeral(z: int)
    ensures IsNumeral(SignedText(z)) && LegalStart(SignedText(z)) && Number(SignedText(z)) == z
  {
    var t := Text(Abs(z));
    TextCanonical(Abs(z));
    assert Unsigned(SignedText(z)) == t == Body(SignedText(z));
    LeadingDigitsAll(t);
  }

  /** What is printed does not start with a plus, nor with a minus that a second pass would read differently. */
  predicate Settled(v: string) {
    var t := Significant(v);
    Negative(v) || t == "" || (t[0] != '+' && (t[0] == '-' ==> |t| > 1 && t[1] != '0'))
  }

  /** A second pass changes nothing if and only if what stands behind the zeros does not start like a numeral. */
  lemma AdjustedTwiceIff(v: string)
    ensures Adjusted(Adjusted(v)) == Adjusted(v) <==> Settled(v)
  {
    var t := Significant(v);
    DropZerosSuffix(Unsigned(v));
    if t != "" {
      DropZerosStop(t, 0);
      if t[0] == '-' && !Negative(v) {
        if |t| > 1 && t[1] != '0' { DropZerosStop(t[1..], 0); }
      }
    }
  }

  /** So it changes nothing about a numeral it has printed. */
  lemma AdjustedTwice(v: string)
    requires IsNumeral(v)
    ensures Adjusted(Adjusted(v)) == Adjusted(v)
  {
    PrintsNumeral(v);
    SignedTextIsNumeral(Number(v));
    PrintsNumeral(SignedText(Number(v)));
  }

  /**
    ExtractData is a parser: from an optional sign, zeros, digits and arbitrary junk it returns the
    canonical digits, and what it leaves at p is the numeral without the junk, standing for the same
    number.
   */
  lemma Parses(s: string, p: nat)
    requires p <= |s|
    ensures var v := CStr(s, p);
            && Deref(Truncate(s, p), Extracted(s, p)) == Text(Magnitude(v))
            && CStr(Truncate(s, p), p) == v[..KeptLength(v)]
            && (LegalStart(v) ==> IsNumeral(v[..KeptLength(v)]) && Number(v[..KeptLength(v)]) == Number(v))
  {
    var v := CStr(s, p);
    CutReads(s, p, 0);
    assert v[..KeptLength(v)][0..] == v[..KeptLength(v)];
    ExtractedReads(s, p);
    if LegalStart(v) { KeptIsNumeral(v); }
  }

  /** A text that does not start like a number counts as zero, its first byte as the sign, and is not cut. */
  lemma IllegalOperand(s: string, p: nat)
    requires p <= |s| && CStr(s, p) != "" && !LegalStart(CStr(s, p))
    ensures Deref(Truncate(s, p), Extracted(s, p)) == "0" && Truncate(s, p) == s
    ensures SignOf(CStr(s, p)) == s[p]
  {
    CStrLies(s, p);
    assert LeadingDigits("") == "" == DropZeros("");
  }

  lemma DropDrop(s: string, i: nat, j: nat)
    requires i + j <= |s|
    ensures s[i..][j..] == s[i + j..]
  {}

  /** The significant digits end what is kept. */
  lemma SignificantEnd(v: string, kept: string, all: string)
    requires LegalStart(v) && kept == v[..KeptLength(v)] && all == LeadingDigits(Body(v))
    ensures |DropZeros(all)| <= |all| <= |kept| && kept[|kept| - |DropZeros(all)|..] == DropZeros(all)
  {
    hide LeadingDigits, Body, DropZeros;
    var k, n := |v| - |Body(v)|, |all| - |DropZeros(all)|;
    KeptDigits(v);
    DropZerosSuffix(all);
    assert |kept| == k + |all|;
    DropDrop(kept, k, n);
  }

  lemma ExtractedReads(s: string, p: nat)
    requires p <= |s|
    ensures Deref(Truncate(s, p), Extracted(s, p)) == Text(Magnitude(CStr(s, p)))
  {
    var v := CStr(s, p);
    var digits := LeadingDigits(Body(v));
    DropZerosText(digits);
    assert Magnitude(v) == Val(digits);
    if DropZeros(digits) == "" {
      assert Extracted(s, p) == ZeroLiteral && Text(0) == "0";
    } else {
      SignificantRead(s, p, v, v[..KeptLength(v)], digits);
    }
  }

  lemma NoDigitsIllegal(v: string)
    ensures !LegalStart(v) ==> LeadingDigits(Body(v)) == "" && DropZeros("") == ""
  {}

  lemma SignificantRead(s: string, p: nat, v: string, kept: string, digits: string)
    requires p <= |s| && v == CStr(s, p) && kept == v[..KeptLength(v)] && digits == LeadingDigits(Body(v))
    requires DropZeros(digits) != ""
    ensures Extracted(s, p).At? && CStr(Truncate(s, p), Extracted(s, p).pos) == DropZeros(digits)
  {
    hide LeadingDigits, DropZeros, CStr, Truncate;
    NoDigitsIllegal(v);
    SignificantEnd(v, kept, digits);
    CutReads(s, p, |kept| - |DropZeros(digits)|);
  }

  /** After the cut, the string at any place of what is kept runs to its end. */
  lemma CutReads(s: string, p: nat, from: nat)
    requires p <= |s| && from <= KeptLength(CStr(s, p))
    ensures CStr(Truncate(s, p), p + from) == CStr(s, p)[..KeptLength(CStr(s, p))][from..]
  {
    var v, t := CStr(s, p), Truncate(s, p);
    var end := p + KeptLength(v);
    CStrLies(s, p);
    CStrIs(t, p + from, end);
    assert v[..KeptLength(v)] == s[p..end];
    assert t[p + from..end] == v[..KeptLength(v)][from..];
  }

  lemma {:induction false} LeadingDigitsPrefix(s: string)
    ensures s[..|LeadingDigits(s)|] == LeadingDigits(s)
  {
    if |s| > 0 && IsDigit(s[0]) { LeadingDigitsPrefix(s[1..]); }
  }

  /** The digits are the end of what is kept. */
  lemma KeptDigits(v: string)
    requires LegalStart(v)
    ensures v[..KeptLength(v)][|v| - |Body(v)|..] == LeadingDigits(Body(v))
  {
    LeadingDigitsPrefix(Body(v));
    assert v[|v| - |Body(v)|..] == Body(v);
    assert v[..KeptLength(v)][|v| - |Body(v)|..] == Body(v)[..|LeadingDigits(Body(v))|];
  }

  lemma KeptIsNumeral(v: string)
    requires LegalStart(v)
    ensures var kept := v[..KeptLength(v)]; IsNumeral(kept) && LegalStart(kept) && Number(kept) == Number(v)
  {
    var kept := v[..KeptLength(v)];
    KeptDigits(v);
    assert Body(kept) == LeadingDigits(Body(v)) == Unsigned(kept);
    LeadingDigitsAll(Body(kept));
  }
}
