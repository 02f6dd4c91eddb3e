/** What the two query string splitters have in common: separators, and the places of texts in a buffer. */
module Fields {

  /** Free of the separators and of NUL. */
  predicate Plain(t: string) {
    '=' !in t && '&' !in t && '\0' !in t
  }

  /** Every '&' among the first n characters has become NUL. */
  function Cut(s: string, n: nat): (t: string)
    ensures |t| == |s|
  {
    seq(|s|, i requires 0 <= i < |s| => if i < n && s[i] == '&' then '\0' else s[i])
  }

  /** One more character is looked at; those behind it are untouched. */
  lemma CutStep(s: string, n: nat)
    requires n < |s|
    ensures Cut(s, n + 1) == (if s[n] == '&' then Cut(s, n)[n := '\0'] else Cut(s, n))
    ensures Cut(s, n)[n..] == s[n..] && Cut(s, n)[n] == s[n] && (n + 1 < |s| ==> Cut(s, n)[n + 1] == s[n + 1])
  {}

  lemma CutNothing(s: string)
    ensures Cut(s, 0) == s
  {}

  /** t stands in s at place i. */
  ghost predicate Sits(s: string, i: nat, t: string) {
    i + |t| <= |s| && forall j {:trigger t[j]} :: 0 <= j < |t| ==> s[i + j] == t[j]
  }

  /** How often c occurs. */
  function Count(s: string, c: char): nat {
    if s == "" then 0 else (if s[0] == c then 1 else 0) + Count(s[1..], c)
  }

  lemma {:induction false} CountSnoc(s: string, c: char)
    requires s != ""
    ensures Count(s, c) == Count(s[..|s| - 1], c) + if s[|s| - 1] == c then 1 else 0
  {
    if |s| == 1 {
      assert s[..0] == "" && s[1..] == "";
    } else {
      CountSnoc(s[1..], c);
      assert s[1..][..|s| - 2] == s[..|s| - 1][1..];
    }
  }
}
