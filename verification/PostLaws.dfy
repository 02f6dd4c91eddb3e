/** The body of a POST reaches the CGI program: only the header is read before it, and only the body is forwarded. */
module PostLaws {
  import opened Decimal
  import opened Numerals
  import opened Lines
  import opened Requests

  const CRLF := "\r\n"

  /** Header lines as texts without CR and LF. */
  predicate PlainLine(h: string) {
    '\r' !in h && '\n' !in h
  }

  predicate PlainLines(hs: seq<string>) {
    forall i :: 0 <= i < |hs| ==> PlainLine(hs[i])
  }

  /** Header lines, each with its CRLF. */
  function Wire(hs: seq<string>): string {
    if hs == [] then "" else hs[0] + CRLF + Wire(hs[1..])
  }

  // ---------- one line ----------

  lemma PlainByte(c: char, rest: string, room: nat)
    requires c != '\r' && c != '\n' && room > 0
    ensures var l := NextLine(rest, room - 1); NextLine([c] + rest, room) == Line([c] + l.text, 1 + l.used)
  {
    assert ([c] + rest)[1..] == rest;
  }

  /** Bytes that are neither CR nor LF are stored as they come. */
  lemma {:induction false} PlainPrefix(h: string, t: string, room: nat)
    requires PlainLine(h) && |h| <= room
    ensures var l := NextLine(t, room - |h|);
            NextLine(h + t, room) == Line(h + l.text, |h| + l.used)
  {
    hide NextLine;
    if h == "" {
      assert h + t == t;
    } else {
      PlainPrefix(h[1..], t, room - 1);
      PlainByte(h[0], h[1..] + t, room);
      Regroup(h, t);
      Regroup(h, NextLine(t, room - |h|).text);
    }
  }

  lemma Regroup(h: string, t: string)
    requires h != ""
    ensures [h[0]] + (h[1..] + t) == h + t
  {}

  /** A CR that is not followed by LF or CR is replaced: the byte behind it is stored in its place, and once more. */
  lemma LoneCr(h: string, c: char, rest: string, room: nat)
    requires PlainLine(h) && |h| + 1 < room && c != '\r' && c != '\n'
    ensures var l := NextLine(rest, room - |h| - 2);
            NextLine(h + ("\r" + ([c] + rest)), room) == Line(h + [c] + [c] + l.text, |h| + 2 + l.used)
  {
    var t := "\r" + ([c] + rest);
    var l := NextLine(rest, room - |h| - 2);
    PlainPrefix(h, t, room);
    PlainByte(c, rest, room - |h| - 1);
    assert t[0] == '\r' && t[1] == c && t[1..] == [c] + rest;
    assert h + ([c] + ([c] + l.text)) == h + [c] + [c] + l.text;
  }

  lemma CrLfLine(tail: string, room: nat)
    requires room > 0
    ensures NextLine(CRLF + tail, room) == Line("\n", 2)
  {
    assert (CRLF + tail)[1..] == "\n" + tail && ("\n" + tail)[0] == '\n';
  }

  /** A line that fits is returned whole, with LF for its CRLF. */
  lemma ShortLine(h: string, tail: string, room: nat)
    requires PlainLine(h) && |h| < room
    ensures NextLine(h + CRLF + tail, room) == Line(h + "\n", |h| + 2)
    ensures (h + CRLF + tail)[|h| + 2..] == tail
  {
    assert h + CRLF + tail == h + (CRLF + tail);
    PlainPrefix(h, CRLF + tail, room);
    CrLfLine(tail, room - |h|);
  }

  /** A line that does not fit loses the byte at `room`, and the rest of it comes as another line. */
  lemma LongLine(h: string, tail: string, room: nat)
    requires PlainLine(h) && |h| >= room
    ensures NextLine(h + CRLF + tail, room) == Line(h[..room], room + 1)
    ensures (h + CRLF + tail)[room + 1..] == if |h| == room then "\n" + tail else h[room + 1..] + CRLF + tail
  {
    hide NextLine;
    LongRest(h, tail, room);
    LongFront(h, CRLF + tail, room);
    assert h + CRLF + tail == h + (CRLF + tail);
  }

  lemma LongFront(h: string, tail: string, room: nat)
    requires PlainLine(h) && |h| >= room && tail != ""
    ensures NextLine(h + tail, room) == Line(h[..room], room + 1)
  {
    hide NextLine;
    var t := h[room..] + tail;
    assert h + tail == h[..room] + t;
    PlainPrefix(h[..room], t, room);
    NoRoom(t);
  }

  /** With no cell left the byte read is lost. */
  lemma NoRoom(t: string)
    requires t != ""
    ensures NextLine(t, 0) == Line("", 1)
  {}

  lemma LongRest(h: string, tail: string, room: nat)
    requires |h| >= room
    ensures (h + CRLF + tail)[room + 1..] == if |h| == room then "\n" + tail else h[room + 1..] + CRLF + tail
  {
    if |h| == room { assert (h + CRLF)[room + 1..] == "\n"; }
  }

  // ---------- clear_head ----------

  /** clear_head passes over this line and looks at the next: its length is not 0 or -1 modulo the buffer size. */
  predicate Passed(h: string) {
    |h| % HEADSIZE != 0 && |h| % HEADSIZE != HEADSIZE - 1
  }

  /** A line that fits is passed over, unless it is the blank one. */
  lemma SkipShort(h: string, tail: string)
    requires PlainLine(h) && |h| < HEADSIZE - 1
    ensures SkipHead(h + CRLF + tail, HEADSIZE - 1) == if h == "" then tail else SkipHead(tail, HEADSIZE - 1)
  {
    ShortLine(h, tail, HEADSIZE - 1);
    if h == "" { assert h + "\n" == "\n"; } else { assert (h + "\n")[0] == h[0] != '\n'; }
  }

  /** A line that does not fit is read in parts; a part may be mistaken for the blank line. */
  lemma SkipLong(h: string, tail: string)
    requires PlainLine(h) && |h| >= HEADSIZE - 1
    ensures SkipHead(h + CRLF + tail, HEADSIZE - 1)
            == if |h| == HEADSIZE - 1 then tail else SkipHead(h[HEADSIZE..] + CRLF + tail, HEADSIZE - 1)
  {
    var room := HEADSIZE - 1;
    LongLine(h, tail, room);
    assert h[..room][0] == h[0] != '\n';
    if |h| == room {
      var t := "\n" + tail;
      assert t[0] == '\n' && t[1..] == tail && NextLine(t, room) == Line("\n", 1);
    }
  }

  /** A line is passed over, or the search for the blank line ends right behind it. */
  lemma {:induction false} SkipLine(h: string, tail: string)
    requires PlainLine(h)
    ensures SkipHead(h + CRLF + tail, HEADSIZE - 1) == if Passed(h) then SkipHead(tail, HEADSIZE - 1) else tail
    decreases |h|
  {
    hide SkipHead, NextLine;
    if |h| < HEADSIZE - 1 {
      SkipShort(h, tail);
    } else {
      SkipLong(h, tail);
      if |h| >= HEADSIZE { SkipLine(h[HEADSIZE..], tail); }
    }
  }

  lemma WireCons(hs: seq<string>, body: string)
    requires hs != []
    ensures Wire(hs) + CRLF + body == hs[0] + CRLF + (Wire(hs[1..]) + CRLF + body)
  {}

  /**
    clear_head stops right behind the blank line if and only if no header line before it has a
    length that is 0 or -1 modulo the size of its buffer.
   */
  lemma {:induction false} ClearHeadIff(hs: seq<string>, body: string)
    requires PlainLines(hs) && forall i :: 0 <= i < |hs| ==> hs[i] != ""
    ensures var rest := SkipHead(Wire(hs) + CRLF + body, HEADSIZE - 1);
            && |rest| >= |body|
            && (|rest| == |body| <==> forall i :: 0 <= i < |hs| ==> Passed(hs[i]))
            && (|rest| == |body| ==> rest == body)
  {
    if hs == [] {
      SkipLine("", body);
      assert Wire(hs) + CRLF + body == "" + CRLF + body;
    } else {
      WireCons(hs, body);
      SkipLine(hs[0], Wire(hs[1..]) + CRLF + body);
      if Passed(hs[0]) {
        ClearHeadIff(hs[1..], body);
      }
    }
  }

  // ---------- GetContentLength ----------

  /** None of the parts in which the line is read starts with the key. */
  predicate WithoutKey(h: string)
    decreases |h|
  {
    !("Content-Length:" <= h) && (|h| >= SIZE ==> WithoutKey(h[SIZE..]))
  }

  lemma FindShort(h: string, tail: string)
    requires PlainLine(h) && |h| < SIZE - 1 && !(KEY <= h)
    ensures FindLength(h + CRLF + tail, SIZE - 1) == FindLength(tail, SIZE - 1)
  {
    ShortLine(h, tail, SIZE - 1);
    KeyPrefix(h);
  }

  /** A line that does not fit is passed over in parts. */
  lemma FindLong(h: string, tail: string)
    requires PlainLine(h) && |h| >= SIZE - 1 && !(KEY <= h)
    ensures FindLength(h + CRLF + tail, SIZE - 1)
            == if |h| == SIZE - 1 then FindLength(tail, SIZE - 1) else FindLength(h[SIZE..] + CRLF + tail, SIZE - 1)
  {
    hide NextLine;
    var room := SIZE - 1;
    LongLine(h, tail, room);
    assert KEY <= h[..room] ==> KEY <= h;
    if |h| == room { LfPassed(tail, room); }
  }

  lemma LfPassed(tail: string, room: nat)
    requires room > 0
    ensures FindLength("\n" + tail, room) == FindLength(tail, room)
  {
    var t := "\n" + tail;
    assert t[0] == '\n' && t[1..] == tail && NextLine(t, room) == Line("\n", 1);
  }

  lemma {:induction false} FindLine(h: string, tail: string)
    requires PlainLine(h) && WithoutKey(h)
    ensures FindLength(h + CRLF + tail, SIZE - 1) == FindLength(tail, SIZE - 1)
    decreases |h|
  {
    hide FindLength, NextLine;
    if |h| < SIZE - 1 {
      FindShort(h, tail);
    } else {
      FindLong(h, tail);
      if |h| >= SIZE { FindLine(h[SIZE..], tail); }
    }
  }

  /** Lines without the key are passed over, however long they are. */
  lemma {:induction false} OtherHeaders(hs: seq<string>, tail: string)
    requires PlainLines(hs) && forall i :: 0 <= i < |hs| ==> WithoutKey(hs[i])
    ensures FindLength(Wire(hs) + tail, SIZE - 1) == FindLength(tail, SIZE - 1)
  {
    hide FindLength, WithoutKey;
    if hs == [] {
      assert Wire(hs) + tail == tail;
    } else {
      assert Wire(hs) + tail == hs[0] + CRLF + (Wire(hs[1..]) + tail);
      FindLine(hs[0], Wire(hs[1..]) + tail);
      OtherHeaders(hs[1..], tail);
    }
  }

  lemma KeyPrefix(h: string)
    ensures KEY <= h + "\n" <==> KEY <= h
  {
    if |h| < |KEY| {
      assert '\n' !in KEY && (h + "\n")[|h|] == '\n';
    } else {
      assert (h + "\n")[..|KEY|] == h[..|KEY|];
    }
  }

  /** The line with the key gives the length. */
  lemma KeyHeader(value: string, tail: string)
    requires PlainLine(value) && |KEY + value| < SIZE - 1
    ensures FindLength(KEY + value + CRLF + tail, SIZE - 1) == (Atoi(value + "\n"), tail)
  {
    assert PlainLine(KEY);
    ShortLine(KEY + value, tail, SIZE - 1);
    assert (KEY + value + "\n")[|KEY|..] == value + "\n";
  }

  // ---------- the whole request ----------

  /** A POST after its request line: headers, the length among them, a blank line, the body. */
  function Post(before: seq<string>, value: string, after: seq<string>, body: string): string {
    Wire(before) + ("Content-Length:" + value + CRLF + (Wire(after) + CRLF + body))
  }

  /**
    The pipe gets the first n bytes of the body and the rest of it stays unread, for any headers
    around the length, if and only if clear_head passes over every line behind it.
   */
  lemma PostDelivered(before: seq<string>, value: string, after: seq<string>, body: string)
    requires PlainLines(before) && PlainLine(value) && PlainLines(after)
    requires forall i :: 0 <= i < |before| ==> WithoutKey(before[i])
    requires |value| + 17 <= SIZE / 2 && forall i :: 0 <= i < |after| ==> after[i] != ""
    ensures var k := Clip(Atoi(value + "\n"), |body|);
            Delivered(Post(before, value, after, body)) == (body[..k], body[k..])
            <==> forall i :: 0 <= i < |after| ==> Passed(after[i])
  {
    hide FindLength, SkipHead, NextLine, Wire, Atoi, Passed, WithoutKey;
    var tail := Wire(after) + CRLF + body;
    OtherHeaders(before, KEY + value + CRLF + tail);
    KeyHeader(value, tail);
    ClearHeadIff(after, body);
    var rest := SkipHead(tail, HEADSIZE - 1);
    var (pipe, left) := Delivered(Post(before, value, after, body));
    assert |pipe| + |left| == |rest|;
  }

  /** Headers without the key, up to the end of the stream, give the length 0 and leave nothing to forward. */
  lemma NoLength(hs: seq<string>)
    requires PlainLines(hs) && forall i :: 0 <= i < |hs| ==> WithoutKey(hs[i])
    ensures FindLength(Wire(hs), SIZE - 1) == (0, "") && Delivered(Wire(hs)) == ("", "")
  {
    OtherHeaders(hs, "");
    assert Wire(hs) + "" == Wire(hs);
    assert NextLine("", SIZE - 1) == Line("", 0) == NextLine("", HEADSIZE - 1);
  }

  /** White space, a sign or none, digits, then something else or the end: the length is the signed number. */
  lemma {:induction false} AtoiReads(gap: string, sign: string, n: int, junk: string)
    requires (forall i :: 0 <= i < |gap| ==> IsSpace(gap[i])) && (sign == "" || sign == "+" || sign == "-")
    requires n >= 0 && (junk == "" || !IsDigit(junk[0]))
    ensures Atoi(gap + (sign + Text(n) + junk)) == if sign == "-" then -n else n
  {
    hide Val, LeadingDigits, Text;
    var s := sign + Text(n) + junk;
    if gap == "" {
      assert gap + s == s;
      SignRead(sign, n, junk);
    } else {
      AtoiReads(gap[1..], sign, n, junk);
      assert (gap + s)[0] == gap[0] && (gap + s)[1..] == gap[1..] + s;
    }
  }

  lemma SignRead(sign: string, n: int, junk: string)
    requires (sign == "" || sign == "+" || sign == "-") && n >= 0 && (junk == "" || !IsDigit(junk[0]))
    ensures Atoi(sign + Text(n) + junk) == if sign == "-" then -n else n
  {
    hide Val, LeadingDigits, Text, Atoi;
    var t := Text(n) + junk;
    DigitsRead(n, junk);
    TextCanonical(n);
    assert t[0] == Text(n)[0] && IsDigit(t[0]);
    SignHeads(t);
    if sign == "" {
      assert sign + Text(n) + junk == t;
    } else {
      assert sign + Text(n) + junk == sign + t;
    }
  }

  lemma SignHeads(t: string)
    requires t != "" && IsDigit(t[0])
    ensures Atoi(t) == Val(LeadingDigits(t)) == Atoi("+" + t) && Atoi("-" + t) == -Val(LeadingDigits(t))
  {
    hide Val, LeadingDigits;
    assert ("+" + t)[1..] == t && ("-" + t)[1..] == t;
  }

  lemma DigitsRead(n: nat, junk: string)
    requires junk == "" || !IsDigit(junk[0])
    ensures Val(LeadingDigits(Text(n) + junk)) == n
  {
    var t := Text(n) + junk;
    TextCanonical(n);
    assert t[..|Text(n)|] == Text(n);
    LeadingDigitsStop(t, |Text(n)|);
  }

  /** "Content-Length: n" as clients write it is read as n. */
  lemma LengthRead(n: nat)
    ensures Atoi(" " + Text(n) + "\n") == n
  {
    TextCanonical(n);
    var s := Text(n) + "\n";
    assert " " + Text(n) + "\n" == [' '] + s && ([' '] + s)[1..] == s;
    assert s[0] == Text(n)[0];
    assert s[..|Text(n)|] == Text(n);
    LeadingDigitsStop(s, |Text(n)|);
  }

  /** With the length written as clients do, the pipe gets the first n bytes of the body and the rest stays unread. */
  lemma BodyDelivered(before: seq<string>, n: nat, after: seq<string>, body: string)
    requires PlainLines(before) && PlainLines(after) && n <= |body|
    requires forall i :: 0 <= i < |before| ==> WithoutKey(before[i])
    requires |Text(n)| + 18 <= SIZE / 2 && forall i :: 0 <= i < |after| ==> after[i] != ""
    ensures Delivered(Post(before, " " + Text(n), after, body)) == (body[..n], body[n..])
            <==> forall i :: 0 <= i < |after| ==> |after[i]| % 1024 != 0 && |after[i]| % 1024 != 1023
  {
    hide Delivered, Post, WithoutKey, PlainLine, Atoi, Text;
    TextPlain(n);
    LengthRead(n);
    PostDelivered(before, " " + Text(n), after, body);
  }

  lemma TextPlain(n: nat)
    ensures PlainLine(" " + Text(n))
  {
    TextCanonical(n);
    assert forall i :: 0 <= i < |Text(n)| ==> IsDigit(Text(n)[i]);
  }
}
