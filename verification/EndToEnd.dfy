/** What the calculator's answers say about numbers. */
module EndToEnd {
  import opened Decimal
  import opened Numerals
  import opened LongDivision
  import opened Division
  import opened Quotients
  import opened Calculator
  import opened Form

  /** A result buffer without NUL is printed as a whole. */
  lemma PrintedWhole(text: string)
    requires '\0' !in text
    ensures Printed(text) == Adjusted(text)
  {
    AdjustedReads(text, 0);
    CStrIs(text, 0, |text|);
    assert text[0..|text|] == text;
  }

  /** A sign and digits denote the signed value of the digits. */
  lemma SignedNumber(sign: char, digits: string)
    requires IsSign(sign) && AllDigits(digits)
    ensures Val(digits) >= 0 && IsNumeral([sign] + digits)
    ensures Number([sign] + digits) == if sign == '-' then -Val(digits) else Val(digits)
  {
    var text := [sign] + digits;
    assert Unsigned(text) == digits == Body(text);
    LeadingDigitsAll(digits);
    ValBound(digits);
  }

  /** A sign and digits in a result buffer are printed as the number they denote. */
  lemma PrintedCells(sign: char, digits: string)
    requires IsSign(sign) && AllDigits(digits)
    ensures Printed([sign] + digits) == SignedText(if sign == '-' then -Val(digits) else Val(digits))
  {
    SignedNumber(sign, digits);
    PrintedWhole([sign] + digits);
    PrintsNumeral([sign] + digits);
  }

  /** "0" in a result buffer is printed as zero. */
  lemma PrintedZero()
    ensures Printed("0") == SignedText(0)
  {
    PrintedWhole("0");
    assert Unsigned("0") == "0" == Body("0");
    LeadingDigitsAll("0");
    ValOne('0');
    PrintsNumeral("0");
  }

  /** An operand is shown as its number. */
  lemma OperandShown(v: string)
    requires LegalStart(v)
    ensures Adjusted(v[..KeptLength(v)]) == SignedText(Number(v)) && IsSign(SignOf(v))
    ensures Canonical(Text(Magnitude(v))) && Val(Text(Magnitude(v))) == Magnitude(v)
  {
    KeptIsNumeral(v);
    PrintsNumeral(v[..KeptLength(v)]);
    TextCanonical(Magnitude(v));
  }

  lemma SumFits(d1: string, d2: string)
    requires AllDigits(d1) && AllDigits(d2)
    ensures 0 <= Val(d1) + Val(d2) < Pow10(Max(|d1|, |d2|) + 1) && Abs(Val(d1) - Val(d2)) < Pow10(Max(|d1|, |d2|))
  {
    ValBound(d1);
    ValBound(d2);
    Pow10Mono(|d1|, Max(|d1|, |d2|));
    Pow10Mono(|d2|, Max(|d1|, |d2|));
  }

  /** Padded digits behind a sign are printed as the number. */
  lemma PadPrinted(sign: char, n: int, len: nat)
    requires IsSign(sign) && 0 <= n < Pow10(len)
    ensures Printed([sign] + Pad(n, len)) == SignedText(if sign == '-' then -n else n)
  {
    PadVal(n, len);
    PrintedCells(sign, Pad(n, len));
  }

  /** ADD, printed: the sum of the magnitudes with the first sign. */
  lemma AddPrinted(d1: string, d2: string, sign: char)
    requires AllDigits(d1) && AllDigits(d2) && IsSign(sign)
    ensures var text := RawAdd(d1, d2, sign);
            Printed(text)
            == SignedText(if sign == '-' then -(Val(d1) + Val(d2)) else Val(d1) + Val(d2))
  {
    SumFits(d1, d2);
    PadPrinted(sign, Val(d1) + Val(d2), Max(|d1|, |d2|) + 1);
  }

  /** SUB, printed: the distance of the magnitudes with the sign of the larger operand. */
  lemma SubPrinted(d1: string, d2: string, s1: char, s2: char)
    requires AllDigits(d1) && AllDigits(d2) && IsSign(s1) && IsSign(s2)
    ensures var text := RawSub(d1, d2, s1, s2);
            var sign := if Val(d1) < Val(d2) then s2 else s1;
            var n: int := Abs(Val(d1) - Val(d2));
            Printed(text) == SignedText(if sign == '-' then -n else n)
  {
    SumFits(d1, d2);
    PadPrinted(if Val(d1) < Val(d2) then s2 else s1, Abs(Val(d1) - Val(d2)), Max(|d1|, |d2|));
  }

  lemma {:induction false} Pow10Add(m: nat, n: nat)
    ensures Pow10(m + n) == Pow10(m) * Pow10(n)
  {
    if n > 0 {
      Pow10Add(m, n - 1);
      assert Pow10(m) * (10 * Pow10(n - 1)) == 10 * (Pow10(m) * Pow10(n - 1));
    }
  }

  lemma ProductBelow(m: nat, a: nat, n: nat, b: nat)
    requires m < a && n < b
    ensures 0 <= m * n < a * b
  {
    assert m * n <= m * b;
    assert m * b < a * b;
  }

  lemma ProductFits(d1: string, d2: string)
    requires AllDigits(d1) && AllDigits(d2)
    ensures 0 <= Val(d1) * Val(d2) < Pow10(|d1| + |d2|)
  {
    ValBound(d1);
    ValBound(d2);
    ProductBelow(Val(d1), Pow10(|d1|), Val(d2), Pow10(|d2|));
    Pow10Add(|d1|, |d2|);
  }

  /** MUL, printed: the product of the magnitudes, negative when the signs differ. */
  lemma MulPrinted(d1: string, d2: string, s1: char, s2: char, n: int)
    requires Canonical(d1) && Canonical(d2) && n == Val(d1) * Val(d2)
    ensures Printed(RawMul(d1, d2, s1, s2)) == SignedText(if s1 == s2 then n else -n)
  {
    ProductFits(d1, d2);
    if d1 == "0" || d2 == "0" {
      ValOne('0');
      assert n == 0;
      PrintedZero();
    } else {
      PadPrinted(if s1 == s2 then '+' else '-', n, |d1| + |d2|);
    }
  }

  /** Division truncated toward zero. */
  function TruncDiv(a: int, b: int): int
    requires b != 0
  {
    if (a < 0) == (b < 0) then Abs(a) / Abs(b) else -(Abs(a) / Abs(b))
  }

  /** A sign and cells without NUL print as a nonzero number exactly when the cells are its digits. */
  lemma ShownIff(sign: char, c: string, q: int)
    requires IsSign(sign) && q > 0
    ensures Adjusted([sign] + c) == SignedText(if sign == '-' then -q else q) <==> AllDigits(c) && Val(c) == q
  {
    hide Val;
    assert Unsigned([sign] + c) == c;
    TextCanonical(q);
    if AllDigits(c) {
      DropZerosText(c);
      if Val(c) > 0 { TextCanonical(Val(c)); }
    } else {
      DigitsBehindZeros(c);
    }
    DashLeads(DropZeros(c), Text(q));
  }

  lemma DashLeads(s: string, t: string)
    ensures "-" + s == "-" + t <==> s == t
  {
    assert ("-" + s)[1..] == s && ("-" + t)[1..] == t;
  }

  lemma DigitsBehindZeros(c: string)
    ensures AllDigits(DropZeros(c)) ==> AllDigits(c)
  {
    DropZerosSuffix(c);
    var n := |c| - |DropZeros(c)|;
    if AllDigits(DropZeros(c)) {
      forall i | 0 <= i < |c| ensures IsDigit(c[i]) {
        if i >= n { assert c[i] == DropZeros(c)[i - n]; }
      }
    }
  }

  /** What is printed of a sign and cells: the cells up to the first NUL. */
  lemma PrintedUpToNul(sign: char, cells: string) returns (j: nat)
    requires IsSign(sign)
    ensures j <= |cells| && (j < |cells| ==> cells[j] == '\0')
    ensures Printed([sign] + cells) == Adjusted([sign] + cells[..j])
  {
    var text := [sign] + cells;
    AdjustedReads(text, 0);
    CStrLies(text, 0);
    j := |CStr(text, 0)| - 1;
    assert text[0..j + 1] == [sign] + cells[..j];
  }

  /** DIV prints the signed quotient of the magnitudes if and only if its cells are the quotient. */
  lemma DivPrintedIff(d1: string, d2: string, s1: char, s2: char, q: int)
    requires Canonical(d1) && Canonical(d2) && d2 != "0" && Val(d1) >= Val(d2) > 0 && q == Val(d1) / Val(d2)
    ensures var res := RawDiv(d1, d2, s1, s2);
            && res.Cells?
            && (Printed(res.text) == SignedText(if s1 == s2 then q else -q) <==> QuotientRight(d1, DivisorOf(d2)))
  {
    hide Printed, Canonical, Val, Quotient, SignedText, Adjusted;
    var d, sign := DivisorOf(d2), if s1 == s2 then '+' else '-';
    var cells := Quotient(d1, d, |d1|);
    DivisorOfIsDivisor(d2);
    AtLeastOne(Val(d1), Val(d2));
    NonZeroHead(d1);
    CanonicalParts(d1);
    var j := PrintedUpToNul(sign, cells);
    ShownIff(sign, cells[..j], q);
    if j == |cells| {
      assert cells[..j] == cells;
    } else {
      CellAt(d1, d, |d1|, j);
      if AllDigits(cells[..j]) { CutTooShort(d1, d, j); }
    }
  }

  lemma SmallerDividend(d1: string, d2: string, s1: char, s2: char)
    requires Val(d1) < Val(d2) && d2 != "0"
    ensures RawDiv(d1, d2, s1, s2) == Cells("0") && Printed("0") == SignedText(0)
  {
    PrintedZero();
  }

  lemma CanonicalParts(s: string)
    requires Canonical(s)
    ensures AllDigits(s) && |s| > 0
  {}

  // ---------- the theorems ----------

  /** An operation whose buffer prints as z is answered with a page that shows z, unless it is a division. */
  lemma CellsAnswered(v1: string, op: string, v3: string, text: string, z: int)
    requires LegalStart(v1) && LegalStart(v3) && Symbol(Read(op, 0)) != "/"
    requires Compute(Read(op, 0), Text(Magnitude(v1)), Text(Magnitude(v3)), SignOf(v1), SignOf(v3)) == Cells(text)
    requires Printed(text) == SignedText(z)
    ensures Answer(v1, op, v3)
            == Page(SignedText(Number(v1)), Symbol(Read(op, 0)), SignedText(Number(v3)), SignedText(z))
  {
    OperandShown(v1);
    OperandShown(v3);
  }

  lemma AddAnswered(v1: string, op: string, v3: string)
    requires LegalStart(v1) && LegalStart(v3) && Read(op, 0) == 'a'
    ensures Answer(v1, op, v3)
            == Page(SignedText(Number(v1)), "+", SignedText(Number(v3)), SignedText(Number(v1) + Number(v3)))
  {
    hide Answer, Printed, SignedText, Magnitude, SignOf, Pad;
    var d1, d2, s1, s2 := Text(Magnitude(v1)), Text(Magnitude(v3)), SignOf(v1), SignOf(v3);
    OperandShown(v1);
    OperandShown(v3);
    if s1 == s2 {
      AddPrinted(d1, d2, s1);
      CellsAnswered(v1, op, v3, RawAdd(d1, d2, s1), Number(v1) + Number(v3));
    } else {
      SubPrinted(d1, d2, s1, s2);
      CellsAnswered(v1, op, v3, RawSub(d1, d2, s1, s2), Number(v1) + Number(v3));
    }
  }

  /** The difference, except that equal signs and a smaller first magnitude turn it around. */
  function SubResult(v1: string, v3: string): int {
    if SignOf(v1) == SignOf(v3) && Magnitude(v1) < Magnitude(v3) then Number(v3) - Number(v1)
    else Number(v1) - Number(v3)
  }

  lemma SubAnswered(v1: string, op: string, v3: string)
    requires LegalStart(v1) && LegalStart(v3) && Read(op, 0) == 's'
    ensures Answer(v1, op, v3)
            == Page(SignedText(Number(v1)), "-", SignedText(Number(v3)), SignedText(SubResult(v1, v3)))
  {
    hide Answer, Printed, SignedText, Magnitude, SignOf, Pad;
    var d1, d2, s1, s2 := Text(Magnitude(v1)), Text(Magnitude(v3)), SignOf(v1), SignOf(v3);
    OperandShown(v1);
    OperandShown(v3);
    if s1 == s2 {
      SubPrinted(d1, d2, s1, s2);
      CellsAnswered(v1, op, v3, RawSub(d1, d2, s1, s2), SubResult(v1, v3));
    } else {
      AddPrinted(d1, d2, s1);
      CellsAnswered(v1, op, v3, RawAdd(d1, d2, s1), SubResult(v1, v3));
    }
  }

  lemma MulAnswered(v1: string, op: string, v3: string)
    requires LegalStart(v1) && LegalStart(v3) && Read(op, 0) == 'm'
    ensures Answer(v1, op, v3)
            == Page(SignedText(Number(v1)), "*", SignedText(Number(v3)), SignedText(Number(v1) * Number(v3)))
  {
    hide Answer, Printed, SignedText, SignOf, RawMul;
    var d1, d2, s1, s2 := Text(Magnitude(v1)), Text(Magnitude(v3)), SignOf(v1), SignOf(v3);
    OperandShown(v1);
    OperandShown(v3);
    MulPrinted(d1, d2, s1, s2, Magnitude(v1) * Magnitude(v3));
    SignsOfProduct(Magnitude(v1), Magnitude(v3));
    CellsAnswered(v1, op, v3, RawMul(d1, d2, s1, s2), Number(v1) * Number(v3));
  }

  lemma SignsOfProduct(m: int, n: int)
    ensures (-m) * n == -(m * n) && m * (-n) == -(m * n) && (-m) * (-n) == m * n
  {}

  lemma TextZero(n: nat)
    ensures Text(n) == "0" <==> n == 0
  {
    TextCanonical(n);
    ValOne('0');
    assert Text(0) == "0";
  }

  /** Without a result the page is not reached; this is so for a zero divisor and for an unknown operator. */
  lemma NoResultAnswered(v1: string, op: string, v3: string)
    ensures Answer(v1, op, v3) == NullDereference
            <==> Read(op, 0) !in "asmd" || (Read(op, 0) == 'd' && Magnitude(v3) == 0)
  {
    hide Printed, RawAdd, RawSub, RawMul, SignOf, Magnitude, KeptLength;
    TextZero(Magnitude(v3));
  }

  /** The page that complains about a zero divisor is never shown, whatever the three values are. */
  lemma ZeroDivisorAnswered(v1: string, op: string, v3: string)
    ensures Answer(v1, op, v3) != ZeroDivisorPage
  {
    hide Printed, RawAdd, RawSub, RawMul, RawDiv, SignOf, Magnitude, KeptLength, SignedText;
    if Read(op, 0) == 'd' && Magnitude(v3) > 0 {
      IllegalIsZero(v3);
      OperandShown(v3);
      ShownZero(v3);
    } else {
      NoResultAnswered(v1, op, v3);
    }
  }

  lemma IllegalIsZero(v: string)
    ensures !LegalStart(v) ==> Magnitude(v) == 0
  {}

  /** The quotient of these operands comes out right: the first is the smaller one, or DIV's cells do. */
  ghost predicate DividesRight(v1: string, v3: string) {
    Magnitude(v1) < Magnitude(v3) || CleanQuotient(Text(Magnitude(v1)), DivisorOf(Text(Magnitude(v3))))
  }

  /** The page for 'd' shows the quotient truncated toward zero if and only if the operands divide right. */
  lemma DivAnswered(v1: string, op: string, v3: string)
    requires LegalStart(v1) && LegalStart(v3) && Read(op, 0) == 'd' && Magnitude(v3) > 0
    ensures var page := Answer(v1, op, v3);
            && page.Page?
            && page == Page(SignedText(Number(v1)), "/", SignedText(Number(v3)), page.result)
            && (page.result == SignedText(TruncDiv(Number(v1), Number(v3))) <==> DividesRight(v1, v3))
  {
    hide Answer, Magnitude, SignedText, SignOf, TruncDiv, CleanQuotient, Printed, RawDiv, Quotient, Val, Text,
         Canonical;
    var d1, d2, s1, s2 := Text(Magnitude(v1)), Text(Magnitude(v3)), SignOf(v1), SignOf(v3);
    OperandShown(v1);
    OperandShown(v3);
    TextZero(Magnitude(v3));
    var q := Magnitude(v1) / Magnitude(v3);
    TruncDivIs(v1, v3);
    DivisionShown(v1, op, v3);
    if Magnitude(v1) < Magnitude(v3) {
      DivMod(Magnitude(v1), Magnitude(v3), 0, Magnitude(v1));
      SmallerDividend(d1, d2, s1, s2);
    } else {
      DivPrintedIff(d1, d2, s1, s2, q);
      DivisorOfIsDivisor(d2);
      QuotientIff(d1, DivisorOf(d2));
    }
  }

  /** Division of the numbers is division of the magnitudes, with the sign from the signs. */
  lemma TruncDivIs(v1: string, v3: string)
    requires LegalStart(v1) && LegalStart(v3) && Magnitude(v3) > 0
    ensures var q := Magnitude(v1) / Magnitude(v3);
            TruncDiv(Number(v1), Number(v3)) == if SignOf(v1) == SignOf(v3) then q else -q
  {
    if Magnitude(v1) == 0 { DivMod(0, Magnitude(v3), 0, 0); }
  }

  /** The page of a division, whatever its cells are. */
  lemma DivisionShown(v1: string, op: string, v3: string)
    requires LegalStart(v1) && LegalStart(v3) && Read(op, 0) == 'd' && Magnitude(v3) > 0
    ensures var res := RawDiv(Text(Magnitude(v1)), Text(Magnitude(v3)), SignOf(v1), SignOf(v3));
            && res.Cells?
            && Answer(v1, op, v3) == Page(SignedText(Number(v1)), "/", SignedText(Number(v3)), Printed(res.text))
  {
    hide Printed, Magnitude, Quotient, SignOf, KeptLength, SignedText;
    OperandShown(v1);
    OperandShown(v3);
    TextZero(Magnitude(v3));
    ShownZero(v3);
  }

  lemma ShownZero(v: string)
    requires LegalStart(v) && Magnitude(v) > 0
    ensures SignedText(Number(v)) != "0"
  {
    SignedTextIsNumeral(Number(v));
    SignedTextIsNumeral(0);
  }

  /** A canonical numeral is shown as it is. */
  lemma CanonicalShown(v: string)
    requires Canonical(v)
    ensures LegalStart(v) && SignOf(v) == '+' && Text(Magnitude(v)) == v && SignedText(Number(v)) == v
  {
    assert IsDigit(v[0]);
    assert Body(v) == v;
    LeadingDigitsAll(v);
    CanonicalUnique(v);
  }

  lemma Worth700()
    ensures Canonical("700") && Canonical("7") && Val("700") == 700 && DivisorOf("7") == Divisor(7, 1)
    ensures Magnitude("7") == 7
  {
    ValSnoc("700");
    ValSnoc("70");
    ValOne('7');
    assert "700"[..2] == "70" && "70"[..1] == "7" == ['7'];
    assert Body("7") == "7";
    LeadingDigitsAll("7");
  }

  /** Cells that do not start with zero are printed as they are, behind a plus. */
  lemma CellsShown(cells: string)
    requires cells != "" && cells[0] != '0' && '\0' !in cells
    ensures Printed("+" + cells) == cells
  {
    PrintedWhole("+" + cells);
    assert Unsigned("+" + cells) == cells;
    DropZerosStop(cells, 0);
  }

  /** 700 / 7 is shown as 10 and the byte 157. */
  lemma SevenHundredShown()
    ensures Answer("700", "d", "7") == Page("700", "/", "7", "10" + [157 as char])
  {
    hide Quotient, Printed, Answer, SignedText, Text, SignOf, Magnitude, Val;
    Worth700();
    CanonicalShown("700");
    CanonicalShown("7");
    DivisionShown("700", "d", "7");
    SevenHundred("700", Divisor(7, 1));
    CellsShown("10" + [157 as char]);
    ValOne('7');
    assert "7" == ['7'];
  }

  /** SUB is right exactly when the signs differ or the first magnitude is not the smaller one. */
  lemma SubRightIff(v1: string, op: string, v3: string)
    requires LegalStart(v1) && LegalStart(v3) && Read(op, 0) == 's'
    ensures Answer(v1, op, v3).Page?
    ensures Answer(v1, op, v3).result == SignedText(Number(v1) - Number(v3))
            <==> SignOf(v1) != SignOf(v3) || Magnitude(v1) >= Magnitude(v3)
  {
    SubAnswered(v1, op, v3);
    OperandShown(v1);
    SignedTextIsNumeral(Number(v1) - Number(v3));
    SignedTextIsNumeral(SubResult(v1, v3));
  }

  /** When subtracting the second operand from the sum leads back to the first. */
  predicate Undone(v1: string, v3: string) {
    || SignOf(v1) == SignOf(v3) || Magnitude(v1) == 0 || Magnitude(v1) > Magnitude(v3)
    || (Magnitude(v1) == Magnitude(v3) && SignOf(v3) == '-')
  }

  lemma ShownSign(z: int)
    ensures SignOf(SignedText(z)) == if z < 0 then '-' else '+'
  {
    TextCanonical(Abs(z));
  }

  lemma ShownApart(y: int, z: int)
    ensures SignedText(y) == SignedText(z) <==> y == z
  {
    SignedTextIsNumeral(y);
    SignedTextIsNumeral(z);
  }

  /** SUB applied to the printed sum and the second operand gives back the first one exactly when Undone says so. */
  lemma AddThenSub(v1: string, v3: string)
    requires LegalStart(v1) && LegalStart(v3)
    ensures var sum := Answer(v1, "add", v3);
            && sum.Page?
            && var back := Answer(sum.result, "sub", v3);
               back.Page? && (back.result == SignedText(Number(v1)) <==> Undone(v1, v3))
  {
    hide Answer, Magnitude, SignedText, SignOf;
    AddAnswered(v1, "add", v3);
    var z := Number(v1) + Number(v3);
    SignedTextIsNumeral(z);
    ShownSign(z);
    OperandShown(v1);
    OperandShown(v3);
    SubAnswered(SignedText(z), "sub", v3);
    ShownApart(SubResult(SignedText(z), v3), Number(v1));
  }
}
