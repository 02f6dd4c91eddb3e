/** What get_line promises: one line a call, CRLF read as LF, nothing lost; and exactly when it keeps that promise. */
module LineLaws {
  import opened Lines

  /** The bytes of the first line, its LF included. */
  function RawLine(s: string): (r: string)
    ensures |r| <= |s| && (s != "" ==> r != "")
  {
    if s == "" then "" else if s[0] == '\n' then "\n" else [s[0]] + RawLine(s[1..])
  }

  /** CRLF becomes LF, everything else stays. */
  function Normal(s: string): string {
    if s == "" then ""
    else if s[0] == '\r' && |s| > 1 && s[1] == '\n' then Normal(s[1..])
    else [s[0]] + Normal(s[1..])
  }

  /** No CR is followed by anything but LF, another CR, or the end. */
  predicate NoLoneCr(s: string) {
    forall i :: 0 <= i < |s| - 1 && s[i] == '\r' ==> s[i + 1] == '\n' || s[i + 1] == '\r'
  }

  lemma {:induction false} NormalNonEmpty(s: string)
    requires s != ""
    ensures Normal(s) != ""
  {
    if |s| > 1 { NormalNonEmpty(s[1..]); }
  }

  lemma NoLoneCrCons(s: string)
    requires s != ""
    ensures NoLoneCr(s) <==> NoLoneCr(s[1..]) && (s[0] == '\r' && |s| > 1 ==> s[1] == '\n' || s[1] == '\r')
  {
    if NoLoneCr(s) {
      forall i | 0 <= i < |s[1..]| - 1 && s[1..][i] == '\r' ensures s[1..][i + 1] == '\n' || s[1..][i + 1] == '\r' {
        assert s[i + 1] == '\r';
      }
    }
    if NoLoneCr(s[1..]) && (s[0] == '\r' && |s| > 1 ==> s[1] == '\n' || s[1] == '\r') {
      forall i | 0 <= i < |s| - 1 && s[i] == '\r' ensures s[i + 1] == '\n' || s[i + 1] == '\r' {
        if i > 0 { assert s[1..][i - 1] == '\r' && s[1..][i] == s[i + 1]; }
      }
    }
  }

  /** The first line of a text starts as the text does. */
  lemma RawLineHead(s: string)
    requires s != "" && s[0] != '\n'
    ensures var r := RawLine(s);
            r == [s[0]] + RawLine(s[1..]) && r[1..] == RawLine(s[1..]) && |r| > 0 && r[0] == s[0]
    ensures |s| > 1 ==> |RawLine(s)| > 1 && RawLine(s)[1] == s[1]
    ensures |s| == 1 ==> RawLine(s) == s
  {
    if |s| > 1 { assert RawLine(s[1..])[0] == s[1]; }
  }

  lemma ConsEqual(c: char, s: string, d: char, t: string)
    ensures [c] + s == [d] + t <==> c == d && s == t
  {
    if [c] + s == [d] + t {
      assert ([c] + s)[0] == c && ([d] + t)[0] == d;
      assert ([c] + s)[1..] == s && ([d] + t)[1..] == t;
    }
  }

  /** The call kept the promise. */
  predicate Kept(s: string, room: nat) {
    NextLine(s, room) == Line(Normal(RawLine(s)), |RawLine(s)|)
  }

  predicate Fits(s: string, room: nat) {
    NoLoneCr(RawLine(s)) && |Normal(RawLine(s))| <= room
  }

  lemma ExactAtCrLf(s: string, room: nat)
    requires |s| > 1 && s[0] == '\r' && s[1] == '\n' && room > 0
    requires Kept(s[1..], room) <==> Fits(s[1..], room)
    ensures Kept(s, room) <==> Fits(s, room)
  {
    RawLineHead(s);
    NoLoneCrCons(RawLine(s));
    assert Normal(RawLine(s)) == Normal(RawLine(s[1..]));
  }

  lemma ExactAtByte(s: string, room: nat)
    requires s != "" && room > 0 && s[0] != '\n' && !(s[0] == '\r' && |s| > 1 && s[1] == '\n')
    requires Kept(s[1..], room - 1) <==> Fits(s[1..], room - 1)
    ensures Kept(s, room) <==> Fits(s, room)
  {
    var r, r' := RawLine(s), RawLine(s[1..]);
    RawLineHead(s);
    NoLoneCrCons(r);
    assert Normal(r) == [s[0]] + Normal(r');
    var l := NextLine(s[1..], room - 1);
    var c := if s[0] == '\r' && |s| > 1 then s[1] else s[0];
    assert NextLine(s, room) == Line([c] + l.text, l.used + 1);
    ConsEqual(c, l.text, s[0], Normal(r'));
  }

  /**
    A call returns the first line, normalised, and takes exactly its bytes, if and only if the line
    fits the buffer and every CR in it is followed by LF, another CR, or the end of the stream.
   */
  lemma {:induction false} LineExact(s: string, room: nat)
    ensures NextLine(s, room) == Line(Normal(RawLine(s)), |RawLine(s)|)
            <==> NoLoneCr(RawLine(s)) && |Normal(RawLine(s))| <= room
  {
    if s != "" && room == 0 {
      NormalNonEmpty(RawLine(s));
    } else if s != "" && s[0] != '\n' {
      if s[0] == '\r' && |s| > 1 && s[1] == '\n' {
        LineExact(s[1..], room);
        ExactAtCrLf(s, room);
      } else {
        LineExact(s[1..], room - 1);
        ExactAtByte(s, room);
      }
    }
  }

  /** The lines of a whole stream, by calls until one returns nothing. */
  function AllLines(s: string, room: nat): seq<string>
    requires room > 0
    decreases |s|
  {
    if s == "" then [] else
    var l := NextLine(s, room);
    [l.text] + AllLines(s[l.used..], room)
  }

  function Joined(lines: seq<string>): string {
    if lines == [] then "" else lines[0] + Joined(lines[1..])
  }

  /** What follows the first line. */
  function AfterLine(s: string): string {
    s[|RawLine(s)|..]
  }

  predicate EndsCrLf(r: string) {
    |r| > 1 && r[|r| - 2] == '\r' && r[|r| - 1] == '\n'
  }

  /** The line has no lone CR and fits, or is one cell too long and the byte it loses is the CR of its CRLF. */
  predicate Passes(r: string, room: nat) {
    NoLoneCr(r) && (|Normal(r)| <= room || (|Normal(r)| == room + 1 && EndsCrLf(r)))
  }

  /** Every line of the stream is of that kind. */
  predicate Readable(s: string, room: nat)
    decreases |s|
  {
    s == "" || (Passes(RawLine(s), room) && Readable(AfterLine(s), room))
  }

  // ---------- the stream, byte by byte ----------

  /** What repeated calls still return, the current one having `left` cells. */
  function Stream(s: string, left: nat, room: nat): string
    requires room > 0
  {
    var l := NextLine(s, left);
    l.text + Joined(AllLines(s[l.used..], room))
  }

  /** No byte is lost but the CR of a CRLF, and none is replaced. */
  predicate Unharmed(s: string, left: nat, room: nat)
    requires room > 0
    decreases |s|
  {
    if s == "" then true
    else if left == 0 then s[0] == '\r' && |s| > 1 && s[1] == '\n' && Unharmed(s[1..], room, room)
    else if s[0] == '\n' then Unharmed(s[1..], room, room)
    else if s[0] == '\r' && |s| > 1 && s[1] == '\n' then Unharmed(s[1..], left, room)
    else (s[0] == '\r' && |s| > 1 ==> s[1] == '\r') && Unharmed(s[1..], left - 1, room)
  }

  lemma StreamFull(s: string, room: nat)
    requires room > 0
    ensures Joined(AllLines(s, room)) == Stream(s, room, room)
  {
    if s != "" {
      var rest := AllLines(s[NextLine(s, room).used..], room);
      assert AllLines(s, room)[1..] == rest;
    }
  }

  /** The byte at the front of the stream, and what becomes of it. */
  lemma StreamStep(s: string, left: nat, room: nat)
    requires room > 0 && s != ""
    ensures Stream(s, left, room)
            == if left == 0 then Stream(s[1..], room, room)
               else if s[0] == '\n' then "\n" + Stream(s[1..], room, room)
               else if s[0] == '\r' && |s| > 1 && s[1] == '\n' then Stream(s[1..], left, room)
               else [if s[0] == '\r' && |s| > 1 then s[1] else s[0]] + Stream(s[1..], left - 1, room)
  {
    hide AllLines, Joined;
    StreamFull(s[1..], room);
    if left > 0 && s[0] != '\n' {
      var left' := if s[0] == '\r' && |s| > 1 && s[1] == '\n' then left else left - 1;
      var l := NextLine(s[1..], left');
      assert s[1..][l.used..] == s[l.used + 1..];
      if left' < left {
        var c := if s[0] == '\r' && |s| > 1 then s[1] else s[0];
        Assoc(c, l.text, Joined(AllLines(s[l.used + 1..], room)));
      }
    }
  }

  lemma Assoc(c: char, a: string, b: string)
    ensures ([c] + a) + b == [c] + (a + b)
  {}

  lemma {:induction false} StreamIff(s: string, left: nat, room: nat)
    requires room > 0
    ensures |Stream(s, left, room)| <= |Normal(s)|
    ensures Stream(s, left, room) == Normal(s) <==> Unharmed(s, left, room)
    decreases |s|
  {
    hide AllLines, Joined, NextLine, Stream;
    if s == "" {
      StreamEmpty(left, room);
    } else {
      StreamStep(s, left, room);
      if left == 0 || s[0] == '\n' {
        StreamIff(s[1..], room, room);
      } else if s[0] == '\r' && |s| > 1 && s[1] == '\n' {
        StreamIff(s[1..], left, room);
      } else {
        StreamIff(s[1..], left - 1, room);
        var c := if s[0] == '\r' && |s| > 1 then s[1] else s[0];
        ConsEqual(c, Stream(s[1..], left - 1, room), s[0], Normal(s[1..]));
      }
      ConsEqual('\n', Stream(s[1..], room, room), s[0], Normal(s[1..]));
    }
  }

  lemma StreamEmpty(left: nat, room: nat)
    requires room > 0
    ensures Stream("", left, room) == ""
  {}

  lemma AfterLineStep(s: string)
    requires s != "" && s[0] != '\n'
    ensures AfterLine(s) == AfterLine(s[1..])
    ensures Normal(RawLine(s)) == if s[0] == '\r' && |s| > 1 && s[1] == '\n' then Normal(RawLine(s[1..]))
                                  else [s[0]] + Normal(RawLine(s[1..]))
  {
    RawLineHead(s);
  }

  /** The first line decides how the stream passes its end. */
  lemma {:induction false} LineUnharmed(s: string, left: nat, room: nat)
    requires room > 0 && s != ""
    ensures Unharmed(s, left, room) <==> Passes(RawLine(s), left) && Unharmed(AfterLine(s), room, room)
  {
    var r := RawLine(s);
    if s[0] == '\n' {
      assert Normal(r) == "\n";
    } else {
      LineStep(s, left);
      if |s| > 1 {
        if s[0] == '\r' && s[1] == '\n' {
          LineUnharmed(s[1..], if left == 0 then room else left, room);
          assert Normal(RawLine(s[1..])) == "\n";
        } else if left > 0 {
          LineUnharmed(s[1..], left - 1, room);
        }
      }
    }
  }

  /** What the first byte of a line, not its LF, asks of the line. */
  lemma LineStep(s: string, left: nat)
    requires s != "" && s[0] != '\n'
    ensures AfterLine(s) == AfterLine(s[1..])
    ensures |s| == 1 ==> (Passes(RawLine(s), left) <==> left > 0) && AfterLine(s) == ""
    ensures |s| > 1 && s[0] == '\r' && s[1] == '\n' ==> Passes(RawLine(s), left)
    ensures |s| > 1 && !(s[0] == '\r' && s[1] == '\n') ==>
              (Passes(RawLine(s), left)
               <==> left > 0 && (s[0] == '\r' ==> s[1] == '\r') && Passes(RawLine(s[1..]), left - 1))
  {
    RawLineHead(s);
    AfterLineStep(s);
    NoLoneCrCons(RawLine(s));
    if |s| > 1 {
      NormalNonEmpty(RawLine(s[1..]));
      assert EndsCrLf(RawLine(s)) <==> EndsCrLf(RawLine(s[1..])) || RawLine(s) == "\r\n";
    }
  }

  lemma {:induction false} ReadableIs(s: string, room: nat)
    requires room > 0
    ensures Readable(s, room) <==> Unharmed(s, room, room)
    decreases |s|
  {
    hide Passes;
    if s != "" {
      LineUnharmed(s, room, room);
      ReadableIs(AfterLine(s), room);
    }
  }

  /**
    Repeated calls lose and invent nothing, the lines joined being the stream with CRLF read as LF, if
    and only if every line is readable.
   */
  lemma LinesConcatenate(s: string, room: nat)
    requires room > 0
    ensures Joined(AllLines(s, room)) == Normal(s) <==> Readable(s, room)
  {
    StreamFull(s, room);
    StreamIff(s, room, room);
    ReadableIs(s, room);
  }
}
