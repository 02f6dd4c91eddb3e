/** The database form: how its query string is split in place, with the missing "sex" field filled in. */
module FormSplit {
  import opened Fields
  import opened Numerals

  /** The recorded places after n characters: behind each '=', and at the '&' after the second when no 's' follows. */
  function Marks(s: string, n: nat): seq<nat>
    requires n <= |s|
  {
    if n == 0 then [] else
    var m := Marks(s, n - 1);
    if s[n - 1] == '=' then m + [n]
    else if s[n - 1] == '&' && |m| == 2 && Read(s, n) != 's' then m + [n - 1]
    else m
  }

  method Split(a: array<char>) returns (v: seq<nat>)
    modifies a
    ensures v == Marks(old(a[..]), a.Length) && a[..] == Cut(old(a[..]), a.Length)
  {
    hide Cut;
    ghost var s := a[..];
    v := [];
    var index, i := 0, 0;
    CutNothing(s);
    while i < a.Length
      invariant 0 <= i <= a.Length && index == |v|
      invariant v == Marks(s, i) && a[..] == Cut(s, i)
    {
      CutStep(s, i);
      assert a[i] == a[..][i];
      assert i + 1 < a.Length ==> a[i + 1] == a[..][i + 1];
      if a[i] == '=' {
        v, index := v + [i + 1], index + 1;
      } else if a[i] == '&' {
        a[i] := '\0';
        if index == 2 {
          if (if i + 1 < a.Length then a[i + 1] else '\0') != 's' {
            v, index := v + [i], index + 1;
          }
        }
      }
      i := i + 1;
    }
  }

  datatype Request = Nothing | NoOperation | Undefined
                   | Fields(op: string, name: string, sex: string, age: string, school: string)

  function Decoded(s: string): Request {
    if s == "" then Nothing
    else if s[0] != 'o' then NoOperation
    else
      var v, t := Marks(s, |s|), Cut(s, |s|);
      if |v| < 5 then Undefined
      else Fields(CStr(t, v[0]), CStr(t, v[1]), CStr(t, v[2]), CStr(t, v[3]), CStr(t, v[4]))
  }

  /** handle_data up to the values it hands to the database client. */
  method HandleForm(query: array<char>) returns (r: Request)
    requires forall i :: 0 <= i < query.Length ==> query[i] != '\0'
    modifies query
    ensures r == Decoded(old(query[..]))
  {
    if query.Length == 0 {
      return Nothing;
    }
    if query[0] != 'o' {
      return NoOperation;
    }
    var v := Split(query);
    if |v| < 5 {
      return Undefined;
    }
    r := Fields(CStr(query[..], v[0]), CStr(query[..], v[1]), CStr(query[..], v[2]),
                CStr(query[..], v[3]), CStr(query[..], v[4]));
  }

  // ---------- the round trip ----------

  datatype Pair = Pair(key: string, value: string)

  predicate PlainPairs(ps: seq<Pair>) {
    forall i :: 0 <= i < |ps| ==> Plain(ps[i].key) && Plain(ps[i].value)
  }

  /** What stands behind a value: nothing, or '&' and the other pairs. */
  function Behind(ps: seq<Pair>): string
    decreases |ps|, 1
  {
    if ps == [] then "" else "&" + Encoded(ps)
  }

  function Encoded(ps: seq<Pair>): string
    requires ps != []
    decreases |ps|, 0
  {
    ps[0].key + "=" + ps[0].value + Behind(ps[1..])
  }

  predicate StartsWithS(t: string) {
    t != "" && t[0] == 's'
  }

  /** The values in order, after `count` others; an empty one precedes a third whose key does not start with 's'. */
  function Values(ps: seq<Pair>, count: nat): seq<string> {
    if ps == [] then []
    else if count == 2 && !StartsWithS(ps[0].key) then ["", ps[0].value] + Values(ps[1..], 4)
    else [ps[0].value] + Values(ps[1..], count + 1)
  }

  /** The strings at the recorded places. */
  function Strings(t: string, v: seq<nat>): seq<string> {
    seq(|v|, i requires 0 <= i < |v| => CStr(t, v[i]))
  }

  lemma {:induction false} NoMark(s: string, i: nat, n: nat)
    requires i <= n <= |s| && forall k :: i <= k < n ==> s[k] != '=' && s[k] != '&'
    ensures Marks(s, n) == Marks(s, i)
    decreases n - i
  {
    if i < n { NoMark(s, i, n - 1); }
  }

  /** A pair: its parts, and what stands behind it. */
  lemma PairLies(s: string, i: nat, p: Pair, behind: string)
    requires Sits(s, i, p.key + "=" + p.value + behind)
    ensures Sits(s, i, p.key) && s[i + |p.key|] == '=' && Sits(s, i + |p.key| + 1, p.value)
    ensures Sits(s, i + |p.key| + 1 + |p.value|, behind)
  {
    var f := p.key + "=" + p.value + behind;
    forall j | 0 <= j < |p.key| ensures s[i + j] == p.key[j] { assert f[j] == p.key[j]; }
    assert f[|p.key|] == '=';
    forall j | 0 <= j < |p.value| ensures s[i + |p.key| + 1 + j] == p.value[j] {
      assert f[|p.key| + 1 + j] == p.value[j];
    }
    forall j | 0 <= j < |behind| ensures s[i + |p.key| + 1 + |p.value| + j] == behind[j] {
      assert f[|p.key| + 1 + |p.value| + j] == behind[j];
    }
  }

  /** A pair records one place, behind its '='. */
  lemma PairMark(s: string, i: nat, p: Pair)
    requires Sits(s, i, p.key) && Sits(s, i + |p.key| + 1, p.value) && Plain(p.key) && Plain(p.value)
    requires i + |p.key| < |s| && s[i + |p.key|] == '='
    ensures i + |p.key| + 1 + |p.value| <= |s|
    ensures Marks(s, i + |p.key| + 1 + |p.value|) == Marks(s, i) + [i + |p.key| + 1]
  {
    var k := i + |p.key| + 1;
    forall j | i <= j < k - 1 ensures s[j] != '=' && s[j] != '&' { assert s[j] == p.key[j - i]; }
    NoMark(s, i, k - 1);
    forall j | k <= j < k + |p.value| ensures s[j] != '=' && s[j] != '&' { assert s[j] == p.value[j - k]; }
    NoMark(s, k, k + |p.value|);
  }

  /** After the cut the value of a pair is a C string. */
  lemma ValueRead(s: string, k: nat, value: string)
    requires Sits(s, k, value) && Plain(value) && (k + |value| < |s| ==> s[k + |value|] == '&')
    ensures CStr(Cut(s, |s|), k) == value
  {
    var t := Cut(s, |s|);
    forall j | k <= j < k + |value| ensures t[j] == s[j] && t[j] != '\0' && t[j] == value[j - k] {
      assert s[j] == value[j - k];
    }
    CStrIs(t, k, k + |value|);
    assert t[k..k + |value|] == value;
  }

  /** The '&' in front of a pair: an empty value is recorded there if two came before and no 's' follows. */
  lemma Ampersand(s: string, i: nat, p: Pair)
    requires i < |s| && s[i] == '&' && Sits(s, i + 1, p.key) && i + 1 + |p.key| < |s| && s[i + 1 + |p.key|] == '='
    ensures Marks(s, i + 1) == Marks(s, i) + if |Marks(s, i)| == 2 && !StartsWithS(p.key) then [i] else []
    ensures CStr(Cut(s, |s|), i) == ""
  {
    if p.key != "" { assert s[i + 1] == p.key[0]; }
  }

  lemma StringsAppend(t: string, v: seq<nat>, w: seq<nat>)
    ensures Strings(t, v + w) == Strings(t, v) + Strings(t, w)
  {}

  /** The pair at i: its mark and its value. */
  lemma PairRead(s: string, i: nat, ps: seq<Pair>)
    requires ps != [] && PlainPairs(ps) && Sits(s, i, Encoded(ps)) && i + |Encoded(ps)| == |s|
    ensures var p := ps[0]; var j := i + |p.key| + 1 + |p.value|;
            && Sits(s, i, p.key) && i + |p.key| < |s| && s[i + |p.key|] == '='
            && j <= |s| && Sits(s, j, Behind(ps[1..])) && j + |Behind(ps[1..])| == |s|
            && Marks(s, j) == Marks(s, i) + [i + |p.key| + 1]
            && CStr(Cut(s, |s|), i + |p.key| + 1) == p.value
  {
    var p, behind := ps[0], Behind(ps[1..]);
    var j := i + |p.key| + 1 + |p.value|;
    PairLies(s, i, p, behind);
    PairMark(s, i, p);
    if ps[1..] != [] { assert s[j] == behind[0] == '&'; }
    ValueRead(s, i + |p.key| + 1, p.value);
  }

  /** The places recorded for one more pair, in front of those of the others. */
  lemma OneMore(t: string, count: nat, ps: seq<Pair>, i: nat, k: nat, w: seq<nat>)
    requires ps != [] && CStr(t, i) == "" && CStr(t, k) == ps[0].value
    requires var filled := count == 2 && !StartsWithS(ps[0].key);
             Strings(t, w) == Values(ps[1..], if filled then 4 else count + 1)
    ensures var filled := count == 2 && !StartsWithS(ps[0].key);
            Strings(t, (if filled then [i, k] else [k]) + w) == Values(ps, count)
  {
    if count == 2 && !StartsWithS(ps[0].key) {
      StringsAppend(t, [i, k], w);
    } else {
      StringsAppend(t, [k], w);
    }
  }

  lemma BehindLies(s: string, i: nat, ps: seq<Pair>)
    requires ps != [] && Sits(s, i, Behind(ps))
    ensures s[i] == '&' && Sits(s, i + 1, Encoded(ps)) && |Behind(ps)| == 1 + |Encoded(ps)|
  {
    var b, e := Behind(ps), Encoded(ps);
    assert b[0] == '&';
    forall j | 0 <= j < |e| ensures s[i + 1 + j] == e[j] { assert b[j + 1] == e[j]; }
  }

  /** From the '&' in front of the remaining pairs on, the recorded places read as their values. */
  lemma {:induction false} RestRead(s: string, i: nat, ps: seq<Pair>) returns (v: seq<nat>)
    requires PlainPairs(ps) && Sits(s, i, Behind(ps)) && i + |Behind(ps)| == |s|
    ensures Marks(s, |s|) == Marks(s, i) + v && Strings(Cut(s, |s|), v) == Values(ps, |Marks(s, i)|)
    decreases |ps|, 1
  {
    if ps == [] {
      return [];
    }
    BehindLies(s, i, ps);
    PairRead(s, i + 1, ps);
    Ampersand(s, i, ps[0]);
    v := PairThenRest(s, i, ps);
  }

  lemma {:induction false} PairThenRest(s: string, i: nat, ps: seq<Pair>) returns (v: seq<nat>)
    requires PlainPairs(ps) && ps != []
    requires var p := ps[0]; var k := i + 1 + |p.key| + 1; var j := k + |p.value|;
             && j <= |s| && Sits(s, j, Behind(ps[1..])) && j + |Behind(ps[1..])| == |s|
             && Marks(s, i + 1) == Marks(s, i) + (if |Marks(s, i)| == 2 && !StartsWithS(p.key) then [i] else [])
             && Marks(s, j) == Marks(s, i + 1) + [k]
             && CStr(Cut(s, |s|), i) == "" && CStr(Cut(s, |s|), k) == p.value
    ensures Marks(s, |s|) == Marks(s, i) + v && Strings(Cut(s, |s|), v) == Values(ps, |Marks(s, i)|)
    decreases |ps|, 0
  {
    hide Marks, CStr, Cut, Strings, Sits, Values, Plain;
    var p := ps[0];
    var k := i + 1 + |p.key| + 1;
    var w := RestRead(s, k + |p.value|, ps[1..]);
    OneMore(Cut(s, |s|), |Marks(s, i)|, ps, i, k, w);
    v := (if |Marks(s, i)| == 2 && !StartsWithS(p.key) then [i, k] else [k]) + w;
  }

  /** Any list of pairs is split into exactly its values, but for the empty third one that may be filled in. */
  lemma SplitRecovers(ps: seq<Pair>)
    requires ps != [] && PlainPairs(ps)
    ensures var s := Encoded(ps);
            Strings(Cut(s, |s|), Marks(s, |s|)) == [ps[0].value] + Values(ps[1..], 1)
  {
    hide Cut, CStr, Plain, Values, Encoded, Behind;
    var s := Encoded(ps);
    PairRead(s, 0, ps);
    var k := |ps[0].key| + 1;
    var w := RestRead(s, k + |ps[0].value|, ps[1..]);
    StringsAppend(Cut(s, |s|), [k], w);
    assert Marks(s, |s|) == [k] + w;
  }

  /** Without a query nothing is done; a query that does not start with 'o' is turned down, and no other. */
  lemma EarlyOutcomes(s: string)
    ensures Decoded(s) == Nothing <==> s == ""
    ensures Decoded(s) == NoOperation <==> s != "" && s[0] != 'o'
  {}

  /** Any list of pairs: its first five values, unless it has fewer. */
  lemma PairsDecoded(ps: seq<Pair>)
    requires ps != [] && PlainPairs(ps) && ps[0].key != "" && ps[0].key[0] == 'o'
    ensures var v := [ps[0].value] + Values(ps[1..], 1);
            Decoded(Encoded(ps)) == if |v| < 5 then Undefined else Fields(v[0], v[1], v[2], v[3], v[4])
  {
    hide Marks, Cut, CStr, Values, Plain, Behind;
    var s := Encoded(ps);
    SplitRecovers(ps);
    var v, t := Marks(s, |s|), Cut(s, |s|);
    assert s[0] == 'o';
    assert |Strings(t, v)| == |v|;
    assert forall i :: 0 <= i < |v| ==> Strings(t, v)[i] == CStr(t, v[i]);
  }

  /** There is one value for every pair, and one more when a third pair's key does not start with 's'. */
  lemma {:induction false} ValuesCounted(ps: seq<Pair>, count: nat)
    ensures |Values(ps, count)|
            == |ps| + if count <= 2 && |ps| > 2 - count && !StartsWithS(ps[2 - count].key) then 1 else 0
    decreases |ps|
  {
    if ps != [] {
      if count == 2 && !StartsWithS(ps[0].key) {
        ValuesCounted(ps[1..], 4);
      } else {
        ValuesCounted(ps[1..], count + 1);
      }
    }
  }

  /** The pairs the form sends; the browser leaves "sex" out when nothing is chosen. */
  function FormPairs(op: string, name: string, sex: string, chosen: bool, age: string, school: string): seq<Pair> {
    [Pair("operation", op), Pair("name", name)] + (if chosen then [Pair("sex", sex)] else [])
    + [Pair("age", age), Pair("school", school)]
  }

  /** The five values come back in order, the third empty when it was not sent; empty values are kept. */
  lemma FormRoundTrip(op: string, name: string, sex: string, chosen: bool, age: string, school: string)
    requires Plain(op) && Plain(name) && Plain(sex) && Plain(age) && Plain(school)
    ensures Decoded(Encoded(FormPairs(op, name, sex, chosen, age, school)))
            == Fields(op, name, if chosen then sex else "", age, school)
  {
    hide Behind, Marks, Cut, CStr, Values, Plain;
    var ps := FormPairs(op, name, sex, chosen, age, school);
    var s := Encoded(ps);
    FormValues(op, name, sex, chosen, age, school);
    SplitRecovers(ps);
    var v, t := Marks(s, |s|), Cut(s, |s|);
    assert Strings(t, v) == [op, name, if chosen then sex else "", age, school];
    assert |v| == 5;
    assert forall i :: 0 <= i < 5 ==> Strings(t, v)[i] == CStr(t, v[i]);
  }

  lemma FormValues(op: string, name: string, sex: string, chosen: bool, age: string, school: string)
    ensures var ps := FormPairs(op, name, sex, chosen, age, school);
            [ps[0].value] + Values(ps[1..], 1) == [op, name, if chosen then sex else "", age, school]
    ensures Plain(op) && Plain(name) && Plain(sex) && Plain(age) && Plain(school)
            ==> PlainPairs(FormPairs(op, name, sex, chosen, age, school))
  {
    hide Values, Plain;
    var last := [Pair("school", school)];
    var tail := [Pair("age", age)] + last;
    var rest := if chosen then [Pair("sex", sex)] + tail else tail;
    assert FormPairs(op, name, sex, chosen, age, school)[1..] == [Pair("name", name)] + rest;
    ValuesCons(Pair("name", name), rest, 1);
    LastValues(age, school);
    if chosen { ValuesCons(Pair("sex", sex), tail, 2); }
    PlainKeys();
  }

  lemma PlainKeys()
    ensures Plain("operation") && Plain("name") && Plain("sex") && Plain("age") && Plain("school")
  {}

  /** The last two values, with and without a third before them. */
  lemma LastValues(age: string, school: string)
    ensures Values([Pair("age", age)] + [Pair("school", school)], 3) == [age, school]
    ensures Values([Pair("age", age)] + [Pair("school", school)], 2) == ["", age, school]
  {
    var last := [Pair("school", school)];
    ValuesCons(Pair("age", age), last, 3);
    ValuesCons(Pair("age", age), last, 2);
    ValuesCons(last[0], [], 4);
    assert last == [last[0]] + [];
  }

  lemma ValuesCons(p: Pair, ps: seq<Pair>, count: nat)
    ensures Values([p] + ps, count)
            == if count == 2 && !StartsWithS(p.key) then ["", p.value] + Values(ps, 4)
               else [p.value] + Values(ps, count + 1)
  {
    assert ([p] + ps)[1..] == ps;
  }
}
