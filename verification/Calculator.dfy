/** handle_data of the calculator: from the raw query string to what the page shows. */
module Calculator {
  import opened Decimal
  import opened Fields
  import opened Numerals
  import opened LongDivision
  import Arithmetic
  import Division

  // ---------- splitting the query into its three parameters ----------

  /** The places right after the '=' signs among the first n characters. */
  function EqMarks(s: string, n: nat): seq<nat>
    requires n <= |s|
  {
    if n == 0 then [] else EqMarks(s, n - 1) + if s[n - 1] == '=' then [n] else []
  }

  /** The split loop; it stops before the last character. */
  method SplitParams(a: array<char>) returns (val: seq<nat>)
    requires a.Length > 0
    modifies a
    ensures val == EqMarks(old(a[..]), a.Length - 1) && a[..] == Cut(old(a[..]), a.Length - 1)
  {
    hide Cut;
    ghost var s := a[..];
    var tmp, tail := 0, a.Length - 1;
    val := [];
    CutNothing(s);
    while tmp < tail
      invariant 0 <= tmp <= tail
      invariant val == EqMarks(s, tmp) && a[..] == Cut(s, tmp)
    {
      CutStep(s, tmp);
      assert a[tmp] == a[..][tmp];
      if a[tmp] == '=' {
        val := val + [tmp + 1];
      } else if a[tmp] == '&' {
        a[tmp] := '\0';
      }
      tmp := tmp + 1;
    }
  }

  // ---------- the sign dispatch ----------

  /** The result buffer of an operation, NULL when there is none. */
  datatype Raw = Null | Cells(text: string)

  function RawAdd(d1: string, d2: string, s1: char): string {
    [s1] + Pad(Abs(Val(d1) + Val(d2)), Max(|d1|, |d2|) + 1)
  }

  function RawSub(d1: string, d2: string, s1: char, s2: char): string {
    [if Val(d1) < Val(d2) then s2 else s1] + Pad(Abs(Val(d1) - Val(d2)), Max(|d1|, |d2|))
  }

  function RawMul(d1: string, d2: string, s1: char, s2: char): string {
    if d1 == "0" || d2 == "0" then "0"
    else [if s1 == s2 then '+' else '-'] + Pad(Abs(Val(d1) * Val(d2)), |d1| + |d2|)
  }

  function RawDiv(d1: string, d2: string, s1: char, s2: char): Raw
  {
    if d2 == "0" then Null
    else if Val(d1) < Val(d2) then Cells("0")
    else Cells([if s1 == s2 then '+' else '-'] + Quotient(d1, Division.DivisorOf(d2), |d1|))
  }

  function Compute(op: char, d1: string, d2: string, s1: char, s2: char): Raw
  {
    match op
    case 'a' => Cells(if s1 == s2 then RawAdd(d1, d2, s1) else RawSub(d1, d2, s1, s2))
    case 's' => Cells(if s1 == s2 then RawSub(d1, d2, s1, s2) else RawAdd(d1, d2, s1))
    case 'm' => Cells(RawMul(d1, d2, s1, s2))
    case 'd' => RawDiv(d1, d2, s1, s2)
    case _ => Null
  }

  function Symbol(op: char): string {
    match op case 'a' => "+" case 's' => "-" case 'm' => "*" case 'd' => "/" case _ => [op]
  }

  /** The switch over the operator, on canonical digits and their signs. */
  method Dispatch(op: char, d1: string, d2: string, s1: char, s2: char) returns (res: array?<char>)
    requires Canonical(d1) && Canonical(d2)
    ensures res != null ==> fresh(res)
    ensures match Compute(op, d1, d2, s1, s2) case Null => res == null case Cells(t) => res != null && res[..] == t
  {
    res := null;
    ghost var left;
    match op {
      case 'a' =>
        if s1 == s2 {
          res := Arithmetic.Add(d1, d2, s1, s2);
        } else {
          res := Arithmetic.Sub(d1, d2, s1, s2);
        }
      case 's' =>
        if s1 == s2 {
          res := Arithmetic.Sub(d1, d2, s1, s2);
        } else {
          res := Arithmetic.Add(d1, d2, s1, s2);
        }
      case 'm' =>
        res := Arithmetic.Mul(d1, d2, s1, s2);
      case 'd' =>
        res, left := Division.Div(d1, d2, s1, s2);
      case _ =>
    }
  }

  // ---------- handle_data ----------

  /**
    What handle_data comes to: nothing for an empty query; undefined unless exactly three parameters
    were recorded; a NULL result is dereferenced; otherwise echo_result shows either the equation or
    the complaint about a zero divisor.
   */
  datatype Outcome = Silent | Undefined | NullDereference | ZeroDivisorPage
                   | Page(left: string, op: string, right: string, result: string)

  function Echo(left: string, op: string, right: string, result: string): Outcome {
    if op == "/" && right == "0" then ZeroDivisorPage else Page(left, op, right, result)
  }

  /** The answer to a query. */
  function Respond(s: string): Outcome {
    if s == "" then Silent else
    var m := EqMarks(s, |s| - 1);
    if |m| != 3 then Undefined else RespondTo(Cut(s, |s| - 1), m[0], m[1], m[2])
  }

  /** The answer to the parameters at p, o and q of the split query, step by step on the buffer that holds it. */
  function RespondTo(b1: string, p: nat, o: nat, q: nat): Outcome {
    var b2 := Truncate(b1, p);
    var b3 := Truncate(b2, q);
    var b4 := AdjustedBuffer(b3, p);
    var b5 := AdjustedBuffer(b4, q);
    Show(Read(b3, o), Deref(b3, Extracted(b1, p)), Deref(b3, Extracted(b2, q)),
         SignOf(CStr(b1, p)), SignOf(CStr(b2, q)),
         Deref(b5, AdjustedPtr(b3, p)), Deref(b5, AdjustedPtr(b4, q)))
  }

  /** A result buffer as AdjustmentData leaves and returns it. */
  function Printed(text: string): string {
    Deref(AdjustedBuffer(text, 0), AdjustedPtr(text, 0))
  }

  /** The page for an operation on digits d1 and d2 with signs s1 and s2; the operands are shown as left and right. */
  function Show(op: char, d1: string, d2: string, s1: char, s2: char, left: string, right: string): Outcome {
    match Compute(op, d1, d2, s1, s2)
    case Null => NullDereference
    case Cells(text) => Echo(left, Symbol(op), right, Printed(text))
  }

  lemma MarkKept(s: string, n: nat, i: nat)
    requires i < |s| && s[i] == '='
    ensures Cut(s, n)[i] == '='
  {}

  method HandleData(query: array<char>) returns (out: Outcome)
    requires forall i :: 0 <= i < query.Length ==> query[i] != '\0'
    modifies query
    ensures out == Respond(old(query[..]))
  {
    hide EqMarks, Cut, RespondTo;
    if query.Length == 0 {
      return Silent;
    }
    ghost var s := query[..];
    var val := SplitParams(query);
    if |val| != 3 {
      return Undefined;
    }
    MarksInOrder(s, |s| - 1);
    MarkKept(s, |s| - 1, val[1] - 1);
    out := Reply(query, val[0], val[1], val[2]);
  }

  /** The rest of handle_data, once the three parameters are at p, o and q. */
  method Reply(query: array<char>, p: nat, o: nat, q: nat) returns (out: Outcome)
    requires p < o < q <= query.Length && query[o - 1] == '='
    modifies query
    ensures out == RespondTo(old(query[..]), p, o, q)
  {
    ghost var b1 := query[..];
    var sybom1 := query[p];
    var r1, s1 := ExtractData(query, p, sybom1);
    ghost var b2 := query[..];
    var sybom2 := if q < query.Length then query[q] else '\0';
    var r2, s2 := ExtractData(query, q, sybom2);
    ghost var b3 := query[..];
    OperandsCanonical(b1, b2, b3, p, o - 1, q);
    var op := query[o];
    var res := Dispatch(op, Deref(query[..], r1), Deref(query[..], r2), s1, s2);
    if res == null {
      return NullDereference;
    }
    var p1 := AdjustmentData(query, p);
    var p2 := AdjustmentData(query, q);
    var p3 := AdjustmentData(res, 0);
    out := Echo(Deref(query[..], p1), Symbol(op), Deref(query[..], p2), Deref(res[..], p3));
  }

  /** Marks are within the text, in order, each behind its '='. */
  lemma {:induction false} MarksInOrder(s: string, n: nat)
    requires n <= |s|
    ensures forall i :: 0 <= i < |EqMarks(s, n)| ==> 0 < EqMarks(s, n)[i] <= n && s[EqMarks(s, n)[i] - 1] == '='
    ensures forall i, j :: 0 <= i < j < |EqMarks(s, n)| ==> EqMarks(s, n)[i] < EqMarks(s, n)[j]
  {
    if n > 0 { MarksInOrder(s, n - 1); }
  }

  lemma {:induction false} MarksCounted(s: string, n: nat)
    requires n <= |s|
    ensures |EqMarks(s, n)| == Count(s[..n], '=')
  {
    if n > 0 {
      MarksCounted(s, n - 1);
      CountSnoc(s[..n], '=');
      assert s[..n][..n - 1] == s[..n - 1];
    }
  }

  /** Nothing is printed for the empty query alone; three '=' in front of the last character make a proper one. */
  lemma EarlyOutcomes(s: string)
    ensures Respond(s) == Silent <==> s == ""
    ensures s != "" ==> (Respond(s) == Undefined <==> Count(s[..|s| - 1], '=') != 3)
  {
    hide Compute, Cut, EqMarks, Count, Truncate, AdjustedBuffer, AdjustedPtr, Extracted, CStr, SignOf;
    if s != "" { MarksCounted(s, |s| - 1); }
  }

  /** However the fields lie, the digits of the operands are canonical numerals when they are used. */
  lemma OperandsCanonical(b1: string, b2: string, b3: string, p: nat, j: nat, q: nat)
    requires p <= j < q <= |b1| && b1[j] == '='
    requires b2 == Truncate(b1, p) && b3 == Truncate(b2, q)
    ensures Canonical(Deref(b3, Extracted(b1, p))) && Canonical(Deref(b3, Extracted(b2, q)))
  {
    ExtractedReads(b2, q);
    TextCanonical(Magnitude(CStr(b2, q)));
    ExtractedReads(b1, p);
    TextCanonical(Magnitude(CStr(b1, p)));
    FirstOperandKept(b1, b2, b3, p, j, q);
  }

  /** Cutting the second operand does not touch the digits of the first. */
  lemma FirstOperandKept(b1: string, b2: string, b3: string, p: nat, j: nat, q: nat)
    requires p <= j < q <= |b1| && b1[j] == '='
    requires b2 == Truncate(b1, p) && b3 == Truncate(b2, q)
    ensures Deref(b3, Extracted(b1, p)) == Deref(b2, Extracted(b1, p))
  {
    var r := Extracted(b1, p);
    if r.At? {
      ExtractedLies(b1, p, j);
      SameString(b2, b3, r.pos, j);
    }
  }

  /** The digits of an operand end before the next '='. */
  lemma ExtractedLies(s: string, p: nat, j: nat)
    requires p <= j < |s| && s[j] == '=' && Extracted(s, p).At?
    ensures var pos := Extracted(s, p).pos; pos + |CStr(Truncate(s, p), pos)| <= j
  {
    hide CStr, Truncate, DropZeros;
    var v := CStr(s, p);
    var kept, all := v[..KeptLength(v)], LeadingDigits(Body(v));
    CStrLies(s, p);
    KeptHasNoMark(v);
    forall i | p <= i < p + |kept| ensures s[i] != '=' { assert s[i] == kept[i - p]; }
    assert j >= p + |kept|;
    SignificantEnd(v, kept, all);
    CutReads(s, p, |kept| - |DropZeros(all)|);
  }

  lemma KeptHasNoMark(v: string)
    requires LegalStart(v)
    ensures '=' !in v[..KeptLength(v)]
  {
    var kept := v[..KeptLength(v)];
    KeptIsNumeral(v);
    assert kept == kept[..|kept| - |Unsigned(kept)|] + Unsigned(kept);
  }
}
