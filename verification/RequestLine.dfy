/** The request line: how accept_request splits it in place into method, path and query. */
module RequestLine {
  import opened Fields
  import opened Numerals
  import opened Requests

  /** What accept_request records, or the status 405. */
  datatype Target = Target(verb: string, url: string, query: string, cgi: bool) | NotAllowed

  /** The longest prefix without white space. */
  function Word(s: string): (w: string)
    ensures |w| <= |s|
  {
    if s == "" || IsSpace(s[0]) then "" else [s[0]] + Word(s[1..])
  }

  function SkipSpace(s: string): (t: string)
    ensures |t| <= |s|
  {
    if s != "" && IsSpace(s[0]) then SkipSpace(s[1..]) else s
  }

  /** What stands before the first c, everything if there is none. */
  function UpTo(s: string, c: char): (t: string)
    ensures |t| <= |s|
  {
    if s == "" || s[0] == c then "" else [s[0]] + UpTo(s[1..], c)
  }

  lemma {:induction false} WordLies(s: string)
    ensures var w := Word(s);
            && (forall i :: 0 <= i < |w| ==> s[i] == w[i] && !IsSpace(w[i]))
            && (|w| < |s| ==> IsSpace(s[|w|]))
  {
    if s != "" && !IsSpace(s[0]) {
      WordLies(s[1..]);
      var w := Word(s[1..]);
      forall i | 0 <= i < |Word(s)| ensures s[i] == Word(s)[i] && !IsSpace(s[i]) {
        if i > 0 { assert s[1..][i - 1] == w[i - 1]; }
      }
    }
  }

  lemma {:induction false} UpToLies(s: string, c: char)
    ensures var u := UpTo(s, c);
            && (forall i :: 0 <= i < |u| ==> s[i] == u[i] && u[i] != c)
            && (|u| < |s| ==> s[|u|] == c)
  {
    if s != "" && s[0] != c {
      UpToLies(s[1..], c);
      var u := UpTo(s[1..], c);
      forall i | 0 <= i < |UpTo(s, c)| ensures s[i] == UpTo(s, c)[i] && s[i] != c {
        if i > 0 { assert s[1..][i - 1] == u[i - 1]; }
      }
    }
  }

  function Lower(c: char): char {
    if 'A' <= c <= 'Z' then (c as int + 32) as char else c
  }

  /** strcasecmp(s, t) == 0 */
  predicate SameIgnoringCase(s: string, t: string) {
    |s| == |t| && forall i :: 0 <= i < |s| ==> Lower(s[i]) == Lower(t[i])
  }

  /** The request target: the second word of the line. */
  function TargetOf(s: string): string {
    Word(SkipSpace(s[|Word(s)|..]))
  }

  /** The query: what follows the first '?', up to the next one. */
  function QueryOf(target: string): string {
    var url := UpTo(target, '?');
    if |url| < |target| then UpTo(target[|url| + 1..], '?') else ""
  }

  function Parsed(s: string): Target {
    var target := TargetOf(s);
    if SameIgnoringCase(Word(s), "POST") then Target(Word(s), target, "", true)
    else if SameIgnoringCase(Word(s), "GET") then
      Target(Word(s), UpTo(target, '?'), QueryOf(target), '?' in target)
    else NotAllowed
  }

  /** The line with every '?' of [from, to) and the cell at `to` overwritten by NUL. */
  function Marked(s: string, from: nat, to: nat): (t: string)
    ensures |t| == |s|
  {
    seq(|s|, k requires 0 <= k < |s| => if (from <= k < to && s[k] == '?') || k == to then '\0' else s[k])
  }

  /** The loop over the target that puts the NULs. */
  method MarkTarget(line: array<char>, index: nat) returns (cgi: bool)
    requires index <= line.Length
    modifies line
    ensures var w := Word(old(line[index..]));
            line[..] == Marked(old(line[..]), index, index + |w|) && (cgi <==> '?' in w)
  {
    ghost var s, rest, w := line[..], line[index..], Word(line[index..]);
    ghost var end := index + |w|;
    WordLies(rest);
    cgi := false;
    var p := index;
    while p < line.Length
      invariant index <= p <= end <= |s| == line.Length
      invariant forall k :: 0 <= k < |s| ==> line[k] == if index <= k < p && s[k] == '?' then '\0' else s[k]
      invariant cgi <==> '?' in w[..p - index]
    {
      assert s[p] == rest[p - index];
      assert p < end ==> w[..p + 1 - index] == w[..p - index] + [s[p]];
      if line[p] == '?' {
        line[p] := '\0';
        cgi := true;
      } else if IsSpace(line[p]) {
        line[p] := '\0';
        break;
      }
      p := p + 1;
    }
    assert p == end && w[..end - index] == w;
  }

  /** The loops that copy a word, for the method and for the path of a POST. */
  method CopyWord(line: array<char>, start: nat) returns (word: string, index: nat)
    requires start <= line.Length
    ensures word == Word(line[start..]) && index == start + |word|
  {
    word, index := "", start;
    ghost var rest, w := line[start..], Word(line[start..]);
    WordLies(rest);
    while index < line.Length && !IsSpace(line[index])
      invariant start <= index <= start + |w| && word == w[..index - start]
    {
      assert line[index] == rest[index - start];
      word := word + [line[index]];
      index := index + 1;
    }
    assert index < line.Length ==> line[index] == rest[index - start];
    assert w[..|w|] == w;
  }

  /** The loop between the words. */
  method PassSpace(line: array<char>, start: nat) returns (index: nat)
    requires start <= line.Length
    ensures index <= line.Length && line[index..] == SkipSpace(line[start..])
  {
    index := start;
    ghost var goal, rest := SkipSpace(line[start..]), line[start..];
    while index < line.Length && IsSpace(line[index])
      invariant start <= index <= line.Length && rest == line[index..]
      invariant SkipSpace(rest) == goal
    {
      assert rest[0] == line[index] && rest[1..] == line[index + 1..];
      rest := rest[1..];
      index := index + 1;
    }
    assert index < line.Length ==> rest[0] == line[index];
  }

  /** The GET branch: the target at index is split in place. */
  method SplitGet(line: array<char>, index: nat) returns (url: string, query: string, cgi: bool)
    requires index <= line.Length && forall i :: 0 <= i < line.Length ==> line[i] != '\0'
    modifies line
    ensures var target := Word(old(line[index..]));
            url == UpTo(target, '?') && query == QueryOf(target) && cgi == ('?' in target)
  {
    hide Word, UpTo, QueryOf, CStr, Marked;
    ghost var s, target := line[..], Word(line[index..]);
    assert line[index..] == s[index..];
    url, query, cgi := "", "", false;
    InUpTo(target, '?');
    NoQuery(target);
    if index == line.Length { assert line[index..] == ""; }
    if index < line.Length {
      cgi := MarkTarget(line, index);
      TargetLies(s, index);
      TargetRead(s, index, target);
      if cgi {
        var i := index + |CStr(line[..], index)| + 1;
        query := CStr(line[..], i);
      }
      url := CStr(line[..], index);
    }
  }

  /** The method, the path and the query of a request line; the line is overwritten on the way. */
  method ParseRequestLine(line: array<char>) returns (r: Target)
    requires forall i :: 0 <= i < line.Length ==> line[i] != '\0'
    modifies line
    ensures r == Parsed(old(line[..]))
  {
    ghost var s := line[..];
    assert line[0..] == s;
    var verb, index := CopyWord(line, 0);
    assert line[index..] == s[index..];
    index := PassSpace(line, index);
    if SameIgnoringCase(verb, "POST") {
      var url, _ := CopyWord(line, index);
      return Target(verb, url, "", true);
    } else if SameIgnoringCase(verb, "GET") {
      var url, query, cgi := SplitGet(line, index);
      return Target(verb, url, query, cgi);
    } else {
      return NotAllowed;
    }
  }

  lemma {:induction false} InUpTo(s: string, c: char)
    ensures c in s <==> |UpTo(s, c)| < |s|
  {
    if s != "" && s[0] != c {
      InUpTo(s[1..], c);
      assert s == [s[0]] + s[1..];
    }
  }

  lemma NoQuery(target: string)
    ensures '?' !in target ==> QueryOf(target) == ""
    ensures target == "" ==> UpTo(target, '?') == ""
    ensures Word("") == ""
  {
    InUpTo(target, '?');
  }

  /** A part of the marked target that starts at p reads up to the next '?'. */
  lemma PartRead(s: string, from: nat, to: nat, p: nat)
    requires from <= p <= to <= |s| && '\0' !in s
    ensures CStr(Marked(s, from, to), p) == UpTo(s[p..to], '?')
  {
    var t, part := Marked(s, from, to), s[p..to];
    var u := UpTo(part, '?');
    UpToLies(part, '?');
    forall i | p <= i < p + |u| ensures t[i] == s[i] && t[i] != '\0' && t[i] == u[i - p] {
      assert s[i] == part[i - p];
    }
    if |u| < to - p { assert part[|u|] == s[p + |u|]; }
    CStrIs(t, p, p + |u|);
    assert t[p..p + |u|] == u;
  }

  /** The target as a part of the line. */
  lemma TargetLies(s: string, index: nat)
    requires index <= |s|
    ensures var target := Word(s[index..]);
            index + |target| <= |s| && target == s[index..index + |target|]
  {
    var target := Word(s[index..]);
    WordLies(s[index..]);
    forall i | 0 <= i < |target| ensures s[index + i] == target[i] { assert s[index..][i] == target[i]; }
  }

  /** Path and query as they are read from the marked line. */
  lemma TargetRead(s: string, index: nat, target: string)
    requires index + |target| <= |s| && target == s[index..index + |target|] && '\0' !in s
    ensures var t := Marked(s, index, index + |target|);
            && CStr(t, index) == UpTo(target, '?')
            && ('?' in target ==> CStr(t, index + |UpTo(target, '?')| + 1) == QueryOf(target))
  {
    var end := index + |target|;
    PartRead(s, index, end, index);
    InUpTo(target, '?');
    if '?' in target {
      var k := |UpTo(target, '?')| + 1;
      Slice(s, index, end, k);
      PartRead(s, index, end, index + k);
    }
  }

  lemma Slice(s: string, i: nat, e: nat, k: nat)
    requires i + k <= e <= |s|
    ensures s[i + k..e] == s[i..e][k..]
  {}

  lemma {:induction false} CountUpTo(s: string, c: char)
    ensures var u := UpTo(s, c);
            Count(s, c) == if |u| < |s| then 1 + Count(s[|u| + 1..], c) else 0
  {
    if s != "" && s[0] != c {
      CountUpTo(s[1..], c);
      var u := UpTo(s[1..], c);
      if |u| < |s| - 1 { assert s[1..][|u| + 1..] == s[|u| + 2..]; }
    }
  }

  /** Joining path and query gives back the target if and only if the target has exactly one '?'. */
  lemma JoinIff(target: string)
    ensures UpTo(target, '?') + "?" + QueryOf(target) == target <==> Count(target, '?') == 1
  {
    hide Count, UpTo;
    var u := UpTo(target, '?');
    CountUpTo(target, '?');
    UpToLies(target, '?');
    if |u| < |target| {
      var rest := target[|u| + 1..];
      var q := UpTo(rest, '?');
      CountUpTo(rest, '?');
      UpToLies(rest, '?');
      assert target[..|u|] == u && target == u + "?" + rest;
      if |q| < |rest| {
        assert |u + "?" + q| < |target|;
      } else {
        assert q == rest;
      }
    } else {
      assert |u + "?" + QueryOf(target)| > |target|;
    }
  }

  // ---------- whole request lines ----------

  predicate IsGet(w: string) {
    |w| == 3 && (w[0] == 'G' || w[0] == 'g') && (w[1] == 'E' || w[1] == 'e') && (w[2] == 'T' || w[2] == 't')
  }

  predicate IsPost(w: string) {
    && |w| == 4 && (w[0] == 'P' || w[0] == 'p') && (w[1] == 'O' || w[1] == 'o')
    && (w[2] == 'S' || w[2] == 's') && (w[3] == 'T' || w[3] == 't')
  }

  lemma SameLetter(c: char, upper: char)
    requires 'A' <= upper <= 'Z'
    ensures Lower(c) == Lower(upper) <==> c == upper || c as int == upper as int + 32
  {}

  lemma VerbsAre(w: string)
    ensures SameIgnoringCase(w, "GET") <==> IsGet(w)
    ensures SameIgnoringCase(w, "POST") <==> IsPost(w)
    ensures !(IsGet(w) && IsPost(w))
  {
    hide Lower;
    if |w| == 3 {
      SameLetter(w[0], 'G');
      SameLetter(w[1], 'E');
      SameLetter(w[2], 'T');
    } else if |w| == 4 {
      SameLetter(w[0], 'P');
      SameLetter(w[1], 'O');
      SameLetter(w[2], 'S');
      SameLetter(w[3], 'T');
    }
  }

  predicate NoSpace(w: string) {
    forall i :: 0 <= i < |w| ==> !IsSpace(w[i])
  }

  predicate AllSpace(w: string) {
    forall i :: 0 <= i < |w| ==> IsSpace(w[i])
  }

  /** Empty, or starting with white space. */
  predicate Ends(rest: string) {
    rest == "" || IsSpace(rest[0])
  }

  /** A line is turned down with 405 if and only if its first word is neither GET nor POST, in letters of any case. */
  lemma NotAllowedIff(w: string, rest: string)
    requires NoSpace(w) && Ends(rest)
    ensures Parsed(w + rest) == NotAllowed <==> !IsGet(w) && !IsPost(w)
  {
    hide Word, UpTo, QueryOf, TargetOf, SameIgnoringCase, IsGet, IsPost;
    TargetIs(w, rest);
    VerbsAre(w);
  }

  /** A line of a verb, white space and a target, and whatever follows behind white space. */
  ghost predicate IsLine(line: string, w: string, gap: string, t: string, rest: string) {
    && line == w + (gap + (t + rest))
    && NoSpace(w) && gap != "" && AllSpace(gap) && NoSpace(t) && Ends(rest) && (t == "" ==> rest == "")
  }

  /** A GET line with target t is split at the first '?' of t; the CGI flag tells whether there is one. */
  lemma GetLineSplit(line: string, w: string, gap: string, t: string, rest: string)
    requires IsLine(line, w, gap, t, rest) && IsGet(w)
    ensures Parsed(line) == Target(w, UpTo(t, '?'), QueryOf(t), '?' in t)
  {
    hide Word, UpTo, QueryOf, TargetOf, SameIgnoringCase, IsGet, IsPost, IsLine;
    LineParts(line, w, gap, t, rest);
    VerbsAre(w);
  }

  /** A POST line keeps its target as it is. */
  lemma PostLineSplit(line: string, w: string, gap: string, t: string, rest: string)
    requires IsLine(line, w, gap, t, rest) && IsPost(w)
    ensures Parsed(line) == Target(w, t, "", true)
  {
    hide Word, UpTo, QueryOf, TargetOf, SameIgnoringCase, IsGet, IsPost, IsLine;
    LineParts(line, w, gap, t, rest);
    VerbsAre(w);
  }

  lemma LineParts(line: string, w: string, gap: string, t: string, rest: string)
    requires IsLine(line, w, gap, t, rest)
    ensures Word(line) == w && TargetOf(line) == t
  {
    hide Word, SkipSpace;
    var tail := gap + (t + rest);
    assert tail[0] == gap[0];
    TargetIs(w, tail);
    assert line[|w|..] == tail;
    if t == "" { assert t + rest == ""; } else { assert (t + rest)[0] == t[0]; }
    GapPassed(gap, t + rest);
    TargetIs(t, rest);
  }

  lemma {:induction false} GapPassed(gap: string, rest: string)
    requires AllSpace(gap) && (rest == "" || !IsSpace(rest[0]))
    ensures SkipSpace(gap + rest) == rest
  {
    if gap == "" {
      assert gap + rest == rest;
    } else {
      GapPassed(gap[1..], rest);
      assert (gap + rest)[0] == gap[0] && (gap + rest)[1..] == gap[1..] + rest;
    }
  }

  lemma TargetIs(t: string, rest: string)
    requires NoSpace(t) && Ends(rest)
    ensures Word(t + rest) == t
  {
    WordIs(t + rest, |t|);
    assert (t + rest)[..|t|] == t;
  }

  lemma {:induction false} WordIs(s: string, n: nat)
    requires n <= |s| && (forall i :: 0 <= i < n ==> !IsSpace(s[i])) && (n < |s| ==> IsSpace(s[n]))
    ensures Word(s) == s[..n]
  {
    if n > 0 { WordIs(s[1..], n - 1); }
  }
}
