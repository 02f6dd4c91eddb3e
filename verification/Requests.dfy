/** Reading a POST request: GetContentLength, clear_head and the loop that forwards the body to the CGI pipe. */
module Requests {
  import opened Decimal
  import opened Numerals
  import opened Lines

  const KEY := "Content-Length:"
  const SIZE := 10240       // _SIZE_, the line buffers
  const HEADSIZE := 1024    // the buffer of clear_head

  predicate IsSpace(c: char) {
    c == ' ' || 9 <= c as int <= 13
  }

  /** C's atoi: white space, an optional sign, digits; the rest is ignored. */
  function Atoi(s: string): int {
    if |s| > 0 && IsSpace(s[0]) then Atoi(s[1..])
    else if |s| > 0 && s[0] == '-' then -Val(LeadingDigits(s[1..]))
    else if |s| > 0 && s[0] == '+' then Val(LeadingDigits(s[1..]))
    else Val(LeadingDigits(s))
  }

  // ---------- clear_head ----------

  /** What is unread after clear_head: lines are taken until a line is just LF or nothing comes. */
  function SkipHead(s: string, room: nat): string
    requires room > 0
    decreases |s|
  {
    var l := NextLine(s, room);
    if l.text == "" || l.text == "\n" then s[l.used..] else SkipHead(s[l.used..], room)
  }

  /** LF only ever ends a line. */
  lemma {:induction false} LfEnds(s: string, room: nat)
    ensures var t := NextLine(s, room).text; |t| > 0 && t[0] == '\n' ==> t == "\n"
  {
    if s != "" && room > 0 && s[0] == '\r' && |s| > 1 && s[1] == '\n' { LfEnds(s[1..], room); }
  }

  lemma SkipStep(s: string, room: nat)
    requires room > 0
    ensures var l := NextLine(s, room);
            SkipHead(s, room) == if l.text == "" || l.text == "\n" then s[l.used..] else SkipHead(s[l.used..], room)
    ensures s != "" ==> NextLine(s, room).used > 0
    ensures s == "" ==> NextLine(s, room).text == ""
  {}

  method ClearHead(sock: Socket)
    requires sock.Valid()
    modifies sock
    ensures sock.Valid() && sock.Rest() == SkipHead(old(sock.Rest()), HEADSIZE - 1)
  {
    hide NextLine, SkipHead;
    var buf := new char[HEADSIZE];
    buf[0] := '\0';
    var ret := 1;
    ghost var goal := SkipHead(sock.Rest(), HEADSIZE - 1);
    while !(buf[0] == '\n' && buf[1] == '\0') && ret > 0
      invariant sock.Valid() && fresh(buf) && buf.Length == HEADSIZE
      invariant goal == if (buf[0] == '\n' && buf[1] == '\0') || ret == 0 then sock.Rest()
                        else SkipHead(sock.Rest(), HEADSIZE - 1)
      decreases |sock.Rest()|, ret
    {
      LfEnds(sock.Rest(), HEADSIZE - 1);
      SkipStep(sock.Rest(), HEADSIZE - 1);
      ret := GetLine(sock, buf);
    }
  }

  // ---------- GetContentLength ----------

  /** The value after the first line that starts with the key, and what is unread then. */
  function FindLength(s: string, room: nat): (r: (int, string))
    requires room > 0
    decreases |s|
  {
    var l := NextLine(s, room);
    if l.text == "" then (0, s[l.used..])
    else if KEY <= l.text then (Atoi(l.text[|KEY|..]), s[l.used..])
    else FindLength(s[l.used..], room)
  }

  method GetContentLength(sock: Socket) returns (contLen: int)
    requires sock.Valid()
    modifies sock
    ensures sock.Valid() && (contLen, sock.Rest()) == FindLength(old(sock.Rest()), SIZE - 1)
  {
    contLen := 0;
    var buf := new char[SIZE];
    ghost var goal := FindLength(sock.Rest(), SIZE - 1);
    while true
      invariant sock.Valid() && fresh(buf) && buf.Length == SIZE && contLen == 0
      invariant goal == FindLength(sock.Rest(), SIZE - 1)
      decreases |sock.Rest()|
    {
      ghost var text := NextLine(sock.Rest(), SIZE - 1).text;
      var ret := GetLine(sock, buf);
      if ret == 0 {
        break;
      }
      assert buf[..ret] == text;
      if ret >= |KEY| && buf[..|KEY|] == KEY {
        assert buf[..ret][..|KEY|] == KEY;
        contLen := Atoi(buf[|KEY|..ret]);
        assert buf[..ret][|KEY|..] == buf[|KEY|..ret];
        break;
      }
      assert ret >= |KEY| ==> text[..|KEY|] == buf[..|KEY|];
    }
  }

  // ---------- the forwarding loop ----------

  function Clip(n: int, max: nat): nat {
    if n < 0 then 0 else if n < max then n else max
  }

  method ForwardBody(sock: Socket, contentLength: int) returns (pipe: string)
    requires sock.Valid()
    modifies sock
    ensures sock.Valid()
    ensures var k := Clip(contentLength, |old(sock.Rest())|);
            pipe == old(sock.Rest())[..k] && sock.Rest() == old(sock.Rest())[k..]
    ensures contentLength <= 0 ==> pipe == "" && sock.Rest() == old(sock.Rest())
    ensures 0 <= contentLength <= |old(sock.Rest())| ==>
              pipe == old(sock.Rest())[..contentLength] && sock.Rest() == old(sock.Rest())[contentLength..]
    ensures contentLength > |old(sock.Rest())| ==> pipe == old(sock.Rest()) && sock.Rest() == ""
  {
    pipe := "";
    var conLen := contentLength;
    var ch, n := '\0', 0;
    ghost var s := sock.Rest();
    while conLen > 0
      invariant sock.Valid() && |pipe| <= |s| && pipe == s[..|pipe|] && sock.Rest() == s[|pipe|..]
      invariant |pipe| == Clip(contentLength - (if conLen < 0 then 0 else conLen), |s|)
      invariant conLen <= contentLength && (contentLength >= 0 ==> conLen >= 0)
    {
      n, ch := sock.Recv(ch);
      if n > 0 {
        pipe := pipe + [ch];
      }
      conLen := conLen - 1;
    }
  }

  /** From the header lines to the pipe: what accept_request and exec_response do with a POST after the request line. */
  method ReceivePost(sock: Socket) returns (pipe: string)
    requires sock.Valid()
    modifies sock
    ensures sock.Valid() && (pipe, sock.Rest()) == Delivered(old(sock.Rest()))
  {
    var contentLength := GetContentLength(sock);
    ClearHead(sock);
    pipe := ForwardBody(sock, contentLength);
  }

  /** What the pipe gets and what stays unread. */
  function Delivered(s: string): (string, string) {
    var (n, rest) := FindLength(s, SIZE - 1);
    var body := SkipHead(rest, HEADSIZE - 1);
    (body[..Clip(n, |body|)], body[Clip(n, |body|)..])
  }
}
