/** The queries the calculator's form sends, and how handle_data takes them apart. */
module Form {
  import opened Decimal
  import opened Fields
  import opened Numerals
  import opened Calculator

  function Field(key: string, value: string, tail: string): string {
    key + "=" + value + tail
  }

  function Query(k1: string, v1: string, k2: string, op: string, k3: string, v3: string): string {
    Field(k1, v1, "&") + Field(k2, op, "&") + Field(k3, v3, "")
  }

  // ---------- the split ----------

  /** Between two places without '=' no mark is recorded. */
  lemma {:induction false} NoMark(s: string, i: nat, n: nat)
    requires i <= n <= |s| && forall k :: i <= k < n ==> s[k] != '='
    ensures EqMarks(s, n) == EqMarks(s, i)
    decreases n - i
  {
    if i < n { NoMark(s, i, n - 1); }
  }

  /** The parts of a field, place by place. */
  lemma FieldParts(s: string, i: nat, key: string, value: string, tail: string)
    requires Sits(s, i, Field(key, value, tail))
    ensures Sits(s, i, key) && s[i + |key|] == '=' && Sits(s, i + |key| + 1, value)
    ensures Sits(s, i + |key| + 1 + |value|, tail)
  {
    var f := Field(key, value, tail);
    forall j | 0 <= j < |key| ensures s[i + j] == key[j] { assert f[j] == key[j]; }
    assert f[|key|] == '=';
    forall j | 0 <= j < |value| ensures s[i + |key| + 1 + j] == value[j] { assert f[|key| + 1 + j] == value[j]; }
    forall j | 0 <= j < |tail| ensures s[i + |key| + 1 + |value| + j] == tail[j] {
      assert f[|key| + 1 + |value| + j] == tail[j];
    }
  }

  /** Nothing Plain holds a mark. */
  lemma NoMarkIn(s: string, i: nat, t: string, n: nat)
    requires Sits(s, i, t) && '=' !in t && i <= n <= i + |t|
    ensures EqMarks(s, n) == EqMarks(s, i)
  {
    forall k | i <= k < n ensures s[k] != '=' { assert s[k] == t[k - i]; }
    NoMark(s, i, n);
  }

  /** A field "key=value" records one mark, behind its '='. */
  lemma FieldMark(s: string, i: nat, key: string, value: string, n: nat)
    requires Sits(s, i, key) && Sits(s, i + |key| + 1, value) && '=' !in key && '=' !in value
    requires s[i + |key|] == '=' && i + |key| < n <= i + |key| + 1 + |value|
    ensures EqMarks(s, n) == EqMarks(s, i) + [i + |key| + 1]
  {
    NoMarkIn(s, i, key, i + |key|);
    NoMarkIn(s, i + |key| + 1, value, n);
  }

  /** Where the three fields of a query lie. */
  lemma QueryLies(s: string, f1: string, f2: string, f3: string)
    requires s == f1 + f2 + f3
    ensures Sits(s, 0, f1) && Sits(s, |f1|, f2) && Sits(s, |f1| + |f2|, f3)
  {}

  /** The three values of a query: where they stand, and that '=' comes before and '&' or the end behind them. */
  ghost predicate Laid(s: string, m: seq<nat>, v1: string, op: string, v3: string) {
    && |m| == 3 && 0 < m[0] && m[0] + |v1| < m[1] && m[1] + |op| < m[2] && m[2] + |v3| == |s|
    && Sits(s, m[0], v1) && Sits(s, m[1], op) && Sits(s, m[2], v3)
    && s[m[0] + |v1|] == '&' && s[m[1] + |op|] == '&' && s[m[1] - 1] == '='
  }

  /** A field in s, its parts and the place behind it. */
  lemma FieldAt(s: string, i: nat, f: string, key: string, value: string, tail: string)
    requires f == Field(key, value, tail) && Sits(s, i, f)
    ensures |f| == |key| + 1 + |value| + |tail|
    ensures Sits(s, i, key) && s[i + |key|] == '=' && Sits(s, i + |key| + 1, value)
    ensures tail == "&" ==> s[i + |key| + 1 + |value|] == '&'
  {
    FieldParts(s, i, key, value, tail);
    if tail == "&" { assert tail[0] == '&'; }
  }

  /** A field with '&' behind it, and the last one. */
  lemma InnerField(s: string, i: nat, f: string, key: string, value: string)
    requires f == Field(key, value, "&") && Sits(s, i, f)
    ensures |f| == |key| + |value| + 2 && i + |f| <= |s|
    ensures Sits(s, i, key) && s[i + |key|] == '=' && Sits(s, i + |key| + 1, value) && s[i + |f| - 1] == '&'
  {
    FieldAt(s, i, f, key, value, "&");
  }

  lemma LastField(s: string, i: nat, f: string, key: string, value: string)
    requires f == Field(key, value, "") && Sits(s, i, f)
    ensures |f| == |key| + |value| + 1 && i + |f| <= |s|
    ensures Sits(s, i, key) && s[i + |key|] == '=' && Sits(s, i + |key| + 1, value)
  {
    FieldAt(s, i, f, key, value, "");
  }

  lemma QueryLaid(k1: string, v1: string, k2: string, op: string, k3: string, v3: string)
    returns (s: string, m: seq<nat>)
    requires Plain(k1) && Plain(v1) && Plain(k2) && Plain(op) && Plain(k3) && Plain(v3)
    ensures s == Query(k1, v1, k2, op, k3, v3) && Laid(s, m, v1, op, v3)
    ensures EqMarks(s, |s| - 1) == if v3 == "" then m[..2] else m
  {
    s := Query(k1, v1, k2, op, k3, v3);
    m := ThreeFields(s, Field(k1, v1, "&"), Field(k2, op, "&"), Field(k3, v3, ""), k1, v1, k2, op, k3, v3);
  }

  lemma PlainParts(key: string, value: string)
    requires Plain(key) && Plain(value)
    ensures '=' !in key && '=' !in value
  {}

  lemma ThreeFields(s: string, f1: string, f2: string, f3: string,
                    k1: string, v1: string, k2: string, op: string, k3: string, v3: string) returns (m: seq<nat>)
    requires Plain(k1) && Plain(v1) && Plain(k2) && Plain(op) && Plain(k3) && Plain(v3)
    requires s == f1 + f2 + f3 && f1 == Field(k1, v1, "&") && f2 == Field(k2, op, "&") && f3 == Field(k3, v3, "")
    ensures Laid(s, m, v1, op, v3) && EqMarks(s, |s| - 1) == if v3 == "" then m[..2] else m
  {
    hide Sits, Laid, EqMarks, Plain, Field;
    QueryLies(s, f1, f2, f3);
    m := FieldsInRow(s, |f1|, |f1| + |f2|, f1, f2, f3, k1, v1, k2, op, k3, v3);
  }

  lemma FieldsInRow(s: string, i: nat, j: nat, f1: string, f2: string, f3: string,
                    k1: string, v1: string, k2: string, op: string, k3: string, v3: string) returns (m: seq<nat>)
    requires Plain(k1) && Plain(v1) && Plain(k2) && Plain(op) && Plain(k3) && Plain(v3)
    requires f1 == Field(k1, v1, "&") && f2 == Field(k2, op, "&") && f3 == Field(k3, v3, "")
    requires i == |f1| && j == i + |f2| && |s| == j + |f3|
    requires Sits(s, 0, f1) && Sits(s, i, f2) && Sits(s, j, f3)
    ensures Laid(s, m, v1, op, v3) && EqMarks(s, |s| - 1) == if v3 == "" then m[..2] else m
  {
    hide Sits, Laid, EqMarks, Plain, Field;
    PlainParts(k1, v1);
    PlainParts(k2, op);
    PlainParts(k3, v3);
    InnerField(s, 0, f1, k1, v1);
    InnerField(s, i, f2, k2, op);
    LastField(s, j, f3, k3, v3);
    m := ThreeMarks(s, i, j, k1, v1, k2, op, k3, v3);
  }

  /** Three fields in a row, at 0, i and j: three marks, or two when nothing follows the last '='. */
  lemma ThreeMarks(s: string, i: nat, j: nat, k1: string, v1: string, k2: string, op: string, k3: string, v3: string)
    returns (m: seq<nat>)
    requires '=' !in k1 && '=' !in v1 && '=' !in k2 && '=' !in op && '=' !in k3 && '=' !in v3
    requires i == |k1| + |v1| + 2 && j == i + |k2| + |op| + 2 && |s| == j + |k3| + 1 + |v3|
    requires Sits(s, 0, k1) && s[|k1|] == '=' && Sits(s, |k1| + 1, v1) && s[i - 1] == '&'
    requires Sits(s, i, k2) && s[i + |k2|] == '=' && Sits(s, i + |k2| + 1, op) && s[j - 1] == '&'
    requires Sits(s, j, k3) && s[j + |k3|] == '=' && Sits(s, j + |k3| + 1, v3)
    ensures Laid(s, m, v1, op, v3)
    ensures EqMarks(s, |s| - 1) == if v3 == "" then m[..2] else m
  {
    m := [|k1| + 1, i + |k2| + 1, j + |k3| + 1];
    TwoMarks(s, i, j, k1, v1, k2, op);
    if v3 == "" {
      NoMarkIn(s, j, k3, |s| - 1);
    } else {
      FieldMark(s, j, k3, v3, |s| - 1);
    }
  }

  lemma TwoMarks(s: string, i: nat, j: nat, k1: string, v1: string, k2: string, op: string)
    requires '=' !in k1 && '=' !in v1 && '=' !in k2 && '=' !in op
    requires i == |k1| + |v1| + 2 && j == i + |k2| + |op| + 2 && |s| > j
    requires Sits(s, 0, k1) && s[|k1|] == '=' && Sits(s, |k1| + 1, v1) && s[i - 1] == '&'
    requires Sits(s, i, k2) && s[i + |k2|] == '=' && Sits(s, i + |k2| + 1, op) && s[j - 1] == '&'
    ensures EqMarks(s, j) == [|k1| + 1, i + |k2| + 1]
  {
    FieldMark(s, 0, k1, v1, i - 1);
    NoMark(s, i - 1, i);
    assert EqMarks(s, i) == [|k1| + 1];
    FieldMark(s, i, k2, op, j - 1);
    NoMark(s, j - 1, j);
  }

  lemma ValueCut(s: string, p: nat, value: string)
    requires |s| > 0 && Sits(s, p, value) && Plain(value)
    requires p + |value| < |s| ==> s[p + |value|] == '&' && p + |value| < |s| - 1
    ensures CStr(Cut(s, |s| - 1), p) == value
  {
    var t := Cut(s, |s| - 1);
    forall k | p <= k < p + |value| ensures t[k] == s[k] && t[k] != '\0' {
      assert s[k] == value[k - p];
    }
    forall j | 0 <= j < |value| ensures t[p..p + |value|][j] == value[j] { assert s[p + j] == value[j]; }
    assert t[p..p + |value|] == value;
    CStrIs(t, p, p + |value|);
  }

  /** The split recovers the three values exactly as sent, provided the third is not empty. */
  lemma SplitRecovers(k1: string, v1: string, k2: string, op: string, k3: string, v3: string)
    returns (s: string, m: seq<nat>)
    requires Plain(k1) && Plain(v1) && Plain(k2) && Plain(op) && Plain(k3) && Plain(v3) && |v3| > 0
    ensures s == Query(k1, v1, k2, op, k3, v3) && |s| > 0 && Laid(s, m, v1, op, v3) && m == EqMarks(s, |s| - 1)
    ensures var b := Cut(s, |s| - 1); CStr(b, m[0]) == v1 && CStr(b, m[1]) == op && CStr(b, m[2]) == v3
  {
    s, m := QueryLaid(k1, v1, k2, op, k3, v3);
    ValueCut(s, m[0], v1);
    ValueCut(s, m[1], op);
    ValueCut(s, m[2], v3);
  }

  /** With an empty third value the last '=' is never looked at and a parameter is missing. */
  lemma SplitMissesEmptyThird(k1: string, v1: string, k2: string, op: string, k3: string)
    requires Plain(k1) && Plain(v1) && Plain(k2) && Plain(op) && Plain(k3)
    ensures Respond(Query(k1, v1, k2, op, k3, "")) == Undefined
  {
    hide Sits, Plain, Query, EqMarks, Cut, RespondTo;
    var s, m := QueryLaid(k1, v1, k2, op, k3, "");
  }

  // ---------- from the fields to the page ----------

  /** What the page shows for the three values, whatever they are. */
  function Answer(v1: string, op: string, v3: string): Outcome {
    Show(Read(op, 0), Text(Magnitude(v1)), Text(Magnitude(v3)), SignOf(v1), SignOf(v3),
         Adjusted(v1[..KeptLength(v1)]), Adjusted(v3[..KeptLength(v3)]))
  }

  /** ExtractData changes at most one cell, inside the operand. */
  lemma TruncateLocal(s: string, p: nat)
    requires p <= |s|
    ensures |Truncate(s, p)| == |s|
    ensures forall i :: 0 <= i < |s| && (i < p || i >= p + |CStr(s, p)|) ==> Truncate(s, p)[i] == s[i]
  {
    CStrLies(s, p);
  }

  /** AdjustmentData changes at most one cell, inside the text, and the printed text ends where the text did. */
  lemma AdjustedLocal(s: string, p: nat)
    requires p <= |s|
    ensures |AdjustedBuffer(s, p)| == |s|
    ensures forall i :: 0 <= i < |s| && (i < p || i >= p + |CStr(s, p)|) ==> AdjustedBuffer(s, p)[i] == s[i]
    ensures var r := AdjustedPtr(s, p);
            r.At? ==> p <= r.pos && r.pos + |CStr(AdjustedBuffer(s, p), r.pos)| == p + |CStr(s, p)|
  {
    var v := CStr(s, p);
    CStrLies(s, p);
    AdjustedReads(s, p);
    if Negative(v) && Significant(v) != "" { assert |Unsigned(v)| < |v|; }
  }

  /** The page depends on the three values alone. */
  lemma FieldsAnswer(b1: string, p: nat, o: nat, q: nat, v1: string, op: string, v3: string)
    requires p + |v1| < o && o + |op| < q && q + |v3| == |b1| && b1[o - 1] == '='
    requires CStr(b1, p) == v1 && CStr(b1, o) == op && CStr(b1, q) == v3
    ensures RespondTo(b1, p, o, q) == Answer(v1, op, v3)
  {
    hide CStr, Truncate, AdjustedBuffer, AdjustedPtr, Extracted, SignOf, Adjusted, Magnitude, KeptLength, Compute;
    var b2 := Truncate(b1, p);
    var b3 := Truncate(b2, q);
    var b4 := AdjustedBuffer(b3, p);
    var b5 := AdjustedBuffer(b4, q);
    OperandsRead(b1, b2, b3, p, o - 1, q, v1, v3);
    OperatorRead(b1, b2, b3, p, o, q, v1, op, v3);
    TextsRead(b3, b4, b5, p, o - 1, q);
  }

  /** The operands as DIV and the others get them, and the texts left of them. */
  lemma OperandsRead(b1: string, b2: string, b3: string, p: nat, j: nat, q: nat, v1: string, v3: string)
    requires p + |v1| <= j < q <= |b1| && b1[j] == '=' && q + |v3| == |b1|
    requires CStr(b1, p) == v1 && CStr(b1, q) == v3 && b2 == Truncate(b1, p) && b3 == Truncate(b2, q)
    ensures |b2| == |b3| == |b1| && CStr(b2, q) == v3
    ensures Deref(b3, Extracted(b1, p)) == Text(Magnitude(v1)) && Deref(b3, Extracted(b2, q)) == Text(Magnitude(v3))
    ensures CStr(b3, p) == v1[..KeptLength(v1)] && CStr(b3, q) == v3[..KeptLength(v3)]
  {
    TruncateLocal(b1, p);
    SameString(b1, b2, q, |b1|);
    Parses(b1, p);
    Parses(b2, q);
    TruncateLocal(b2, q);
    SameString(b2, b3, p, j);
    FirstOperandKept(b1, b2, b3, p, j, q);
  }

  lemma OperatorRead(b1: string, b2: string, b3: string, p: nat, o: nat, q: nat, v1: string, op: string, v3: string)
    requires p + |v1| < o && o + |op| < q <= |b1| && q + |v3| == |b1|
    requires CStr(b1, p) == v1 && CStr(b1, o) == op && CStr(b1, q) == v3
    requires b2 == Truncate(b1, p) && b3 == Truncate(b2, q)
    ensures Read(b3, o) == Read(op, 0)
  {
    TruncateLocal(b1, p);
    TruncateLocal(b2, q);
    CStrLies(b1, o);
  }

  /** The texts the page shows, after both have been adjusted. */
  lemma TextsRead(b3: string, b4: string, b5: string, p: nat, j: nat, q: nat)
    requires p + |CStr(b3, p)| <= j < q <= |b3| && b4 == AdjustedBuffer(b3, p) && b5 == AdjustedBuffer(b4, q)
    ensures Deref(b5, AdjustedPtr(b3, p)) == Adjusted(CStr(b3, p))
    ensures Deref(b5, AdjustedPtr(b4, q)) == Adjusted(CStr(b3, q))
  {
    AdjustedLocal(b3, p);
    CStrLies(b3, q);
    SameString(b3, b4, q, |b3|);
    AdjustedReads(b3, p);
    AdjustedReads(b4, q);
    AdjustedLocal(b4, q);
    var r := AdjustedPtr(b3, p);
    if r.At? { SameString(b4, b5, r.pos, j); }
  }

  lemma RespondSplit(s: string, m: seq<nat>)
    requires |s| > 0 && |m| == 3 && m == EqMarks(s, |s| - 1)
    ensures Respond(s) == RespondTo(Cut(s, |s| - 1), m[0], m[1], m[2])
  {}

  /** The page for a query laid out in three fields. */
  lemma LaidAnswered(s: string, m: seq<nat>, v1: string, op: string, v3: string)
    requires |s| > 0 && Laid(s, m, v1, op, v3)
    requires var b := Cut(s, |s| - 1); CStr(b, m[0]) == v1 && CStr(b, m[1]) == op && CStr(b, m[2]) == v3
    ensures RespondTo(Cut(s, |s| - 1), m[0], m[1], m[2]) == Answer(v1, op, v3)
  {
    var b := Cut(s, |s| - 1);
    assert b[m[1] - 1] == s[m[1] - 1];
    FieldsAnswer(b, m[0], m[1], m[2], v1, op, v3);
  }

  /** From the raw query to the page: the answer is that to the three values. */
  lemma QueryAnswered(k1: string, v1: string, k2: string, op: string, k3: string, v3: string)
    requires Plain(k1) && Plain(v1) && Plain(k2) && Plain(op) && Plain(k3) && Plain(v3) && |v3| > 0
    ensures Respond(Query(k1, v1, k2, op, k3, v3)) == Answer(v1, op, v3)
  {
    hide Laid, Plain, Query, EqMarks, Cut, CStr, Answer, RespondTo, Respond;
    var s, m := SplitRecovers(k1, v1, k2, op, k3, v3);
    LaidAnswered(s, m, v1, op, v3);
    RespondSplit(s, m);
  }
}
