/** accept_request as a whole: every byte of a request on its way to the request line, the headers or the CGI pipe. */
module Serving {
  import opened Decimal
  import opened Numerals
  import opened Lines
  import opened Requests
  import opened RequestLine
  import opened PostLaws

  /** What stat says about a path. */
  datatype FileInfo = Missing | Directory | File(executable: bool)

  /** How accept_request ends: nothing read, an error status, a file to send, or a CGI program with its input. */
  datatype Served = NoRequest | Rejected(status: int) | Static(path: string)
                  | Cgi(target: Target, path: string, pipe: string)

  function PathOf(url: string): string {
    "/home/lounuo/HTTP" + if url != "" && url[0] == '/' then url else ""
  }

  function FullPath(url: string, info: FileInfo): string {
    PathOf(url) + if info == Directory then "htdocs/mysql_response.html" else ""
  }

  /** The end of accept_request and what is unread then, the line being done with. */
  function Handled(t: Target, rest: string, stat: string -> FileInfo): (Served, string) {
    if t == NotAllowed then (Rejected(405), rest)
    else if stat(PathOf(t.url)) == Missing then (Rejected(404), rest)
    else
      var info := stat(PathOf(t.url));
      var path := FullPath(t.url, info);
      if !t.cgi && info != File(true) then (Static(path), SkipHead(rest, HEADSIZE - 1))
      else if SameIgnoringCase(t.verb, "POST") then
        var (pipe, left) := Delivered(rest);
        (Cgi(t.(cgi := true), path, pipe), left)
      else (Cgi(t.(cgi := true), path, ""), SkipHead(rest, HEADSIZE - 1))
  }

  function Accepted(s: string, stat: string -> FileInfo): (Served, string) {
    var l := NextLine(s, SIZE - 1);
    if l.text == "" then (NoRequest, s[l.used..]) else Handled(Parsed(CStr(l.text, 0)), s[l.used..], stat)
  }

  method AcceptRequest(sock: Socket, stat: string -> FileInfo) returns (r: Served)
    requires sock.Valid()
    modifies sock
    ensures sock.Valid() && (r, sock.Rest()) == Accepted(old(sock.Rest()), stat)
  {
    hide Parsed, NextLine, SkipHead, Delivered, CStr;
    ghost var l := NextLine(sock.Rest(), SIZE - 1);
    var buf := new char[SIZE];
    var size := GetLine(sock, buf);
    if size == 0 {
      return NoRequest;
    }
    assert buf[..size] == l.text;
    var text := CStr(buf[..size], 0);
    FreeOfNul(buf[..size]);
    var line := new char[|text|](i => if 0 <= i < |text| then text[i] else '\0');
    assert line[..] == text;
    var t := ParseRequestLine(line);
    r := Finish(sock, t, stat);
  }

  /** What follows the request line. */
  method Finish(sock: Socket, t: Target, stat: string -> FileInfo) returns (r: Served)
    requires sock.Valid()
    modifies sock
    ensures sock.Valid() && (r, sock.Rest()) == Handled(t, old(sock.Rest()), stat)
  {
    hide SkipHead, Delivered, PathOf;
    if t.NotAllowed? {
      return Rejected(405);
    }
    var info := stat(PathOf(t.url));
    if info == Missing {
      return Rejected(404);
    }
    var path := FullPath(t.url, info);
    var cgi := t.cgi || info == File(true);
    if !cgi {
      ClearHead(sock);
      return Static(path);
    }
    if SameIgnoringCase(t.verb, "POST") {
      var pipe := ReceivePost(sock);
      return Cgi(t.(cgi := true), path, pipe);
    }
    ClearHead(sock);
    var pipe := ForwardBody(sock, 0);
    return Cgi(t.(cgi := true), path, "");
  }

  lemma FreeOfNul(s: string)
    ensures forall i :: 0 <= i < |CStr(s, 0)| ==> CStr(s, 0)[i] != '\0'
  {
    CStrLies(s, 0);
  }

  // ---------- whole requests ----------

  /** A request line that fits its buffer. */
  predicate Fitting(line: string) {
    PlainLine(line) && '\0' !in line && |line| < SIZE - 1
  }

  /** It comes out of the buffer with an LF behind it. */
  lemma LineRead(line: string, tail: string, stat: string -> FileInfo)
    requires Fitting(line)
    ensures Accepted(line + CRLF + tail, stat) == Handled(Parsed(line + "\n"), tail, stat)
  {
    hide NextLine, Parsed, Handled;
    ShortLine(line, tail, SIZE - 1);
    var t := line + "\n";
    CStrIs(t, 0, |t|);
    assert t[0..|t|] == t;
  }

  lemma LfBehind(line: string, w: string, gap: string, t: string, rest: string)
    requires IsLine(line, w, gap, t, rest) && t != ""
    ensures IsLine(line + "\n", w, gap, t, rest + "\n")
  {
    if rest != "" { assert (rest + "\n")[0] == rest[0]; }
    assert line + "\n" == w + (gap + (t + (rest + "\n")));
  }

  /** Nothing comes of an empty stream, and only of that. */
  lemma NoRequestIff(s: string, stat: string -> FileInfo)
    ensures Accepted(s, stat).0 == NoRequest <==> s == ""
    ensures s == "" ==> Accepted(s, stat).1 == ""
  {
    hide Parsed, CStr;
    HandledIsRequest(Parsed(CStr(NextLine(s, SIZE - 1).text, 0)), s[NextLine(s, SIZE - 1).used..], stat);
  }

  lemma HandledIsRequest(t: Target, rest: string, stat: string -> FileInfo)
    ensures Handled(t, rest, stat).0 != NoRequest
  {}

  /** A verb other than GET and POST ends as 405, with nothing but the request line taken; no other line does. */
  lemma MethodNotAllowedIff(w: string, rest: string, tail: string, stat: string -> FileInfo)
    requires Fitting(w + rest) && NoSpace(w) && Ends(rest)
    ensures var (r, left) := Accepted(w + rest + CRLF + tail, stat);
            && (r == Rejected(405) <==> !IsGet(w) && !IsPost(w))
            && (r == Rejected(405) ==> left == tail)
  {
    hide Accepted, Parsed, PathOf, FullPath, SkipHead, Delivered, IsGet, IsPost, SameIgnoringCase, PlainLine;
    LineRead(w + rest, tail, stat);
    if rest != "" { assert (rest + "\n")[0] == rest[0]; }
    NotAllowedIff(w, rest + "\n");
    assert w + (rest + "\n") == w + rest + "\n";
  }

  /** The file a target names: below the root when it starts with a slash, otherwise the root. */
  lemma FileNamed(t: string, url: string)
    requires t != "" && (url == t || url == UpTo(t, '?'))
    ensures PathOf(url) == "/home/lounuo/HTTP" + if t[0] == '/' then url else ""
    ensures forall info :: FullPath(url, info)
              == PathOf(url) + if info == Directory then "htdocs/mysql_response.html" else ""
  {
    if t[0] == '/' { assert UpTo(t, '?')[0] == '/'; }
  }

  /** A GET or POST of a file that is not there ends as 404, with nothing but the request line taken; no other does. */
  lemma NotFoundIff(line: string, w: string, gap: string, t: string, rest: string, file: string, tail: string,
                    stat: string -> FileInfo)
    requires IsLine(line, w, gap, t, rest) && t != "" && Fitting(line) && (IsGet(w) || IsPost(w))
    requires file == "/home/lounuo/HTTP" + if t[0] != '/' then "" else if IsGet(w) then UpTo(t, '?') else t
    ensures var (r, left) := Accepted(line + CRLF + tail, stat);
            && (r == Rejected(404) <==> stat(file) == Missing)
            && (r == Rejected(404) ==> left == tail)
  {
    hide Accepted, Parsed, PathOf, FullPath, SkipHead, Delivered, IsGet, IsPost, SameIgnoringCase, PlainLine, IsLine,
         UpTo, QueryOf;
    LineRead(line, tail, stat);
    LfBehind(line, w, gap, t, rest);
    VerbsAre(w);
    FileNamed(t, if IsGet(w) then UpTo(t, '?') else t);
    if IsGet(w) {
      GetLineSplit(line + "\n", w, gap, t, rest + "\n");
    } else {
      PostLineSplit(line + "\n", w, gap, t, rest + "\n");
    }
  }

  /**
    A whole POST request with target t: the CGI program is the file t names, or the default page of
    the directory; it gets exactly the first n bytes of the body and the rest stays unread, whatever
    headers are around the length, if and only if clear_head passes over those behind it.
   */
  lemma PostServed(line: string, w: string, gap: string, t: string, rest: string, file: string,
                   before: seq<string>, value: string, after: seq<string>, body: string, stat: string -> FileInfo)
    requires IsLine(line, w, gap, t, rest) && t != "" && Fitting(line) && IsPost(w)
    requires file == "/home/lounuo/HTTP" + (if t[0] == '/' then t else "") && stat(file) != Missing
    requires PlainLines(before) && PlainLine(value) && PlainLines(after)
    requires forall i :: 0 <= i < |before| ==> WithoutKey(before[i])
    requires |value| + 17 <= SIZE / 2 && forall i :: 0 <= i < |after| ==> after[i] != ""
    ensures var (r, left) := Accepted(line + CRLF + Post(before, value, after, body), stat);
            var k := Clip(Atoi(value + "\n"), |body|);
            && r.Cgi? && r.target == Target(w, t, "", true)
            && r.path == (if stat(file) == Directory then file + "htdocs/mysql_response.html" else file)
            && ((r.pipe, left) == (body[..k], body[k..]) <==> forall i :: 0 <= i < |after| ==> Passed(after[i]))
  {
    hide Accepted, Parsed, Delivered, Post, Atoi, Passed, WithoutKey, PathOf, SameIgnoringCase, FullPath, PlainLine,
         IsLine, IsPost, IsGet;
    LineRead(line, Post(before, value, after, body), stat);
    LfBehind(line, w, gap, t, rest);
    PostLineSplit(line + "\n", w, gap, t, rest + "\n");
    PostDelivered(before, value, after, body);
    VerbsAre(w);
    FileNamed(t, t);
  }

  /** With the length written as clients do: exactly the first n bytes, and everything behind them is left. */
  lemma BodyServed(line: string, w: string, gap: string, t: string, rest: string, file: string,
                   before: seq<string>, n: nat, after: seq<string>, body: string, stat: string -> FileInfo)
    requires IsLine(line, w, gap, t, rest) && t != "" && Fitting(line) && IsPost(w)
    requires file == "/home/lounuo/HTTP" + (if t[0] == '/' then t else "") && stat(file) != Missing
    requires PlainLines(before) && PlainLines(after) && n <= |body|
    requires forall i :: 0 <= i < |before| ==> WithoutKey(before[i])
    requires |Text(n)| + 18 <= SIZE / 2 && forall i :: 0 <= i < |after| ==> after[i] != ""
    ensures var (r, left) := Accepted(line + CRLF + Post(before, " " + Text(n), after, body), stat);
            && r.Cgi?
            && ((r.pipe, left) == (body[..n], body[n..])
                <==> forall i :: 0 <= i < |after| ==> |after[i]| % 1024 != 0 && |after[i]| % 1024 != 1023)
  {
    hide Accepted, Delivered, Post, Atoi, WithoutKey, PlainLine, Text, IsLine, IsPost, Fitting;
    TextPlain(n);
    LengthRead(n);
    PostServed(line, w, gap, t, rest, file, before, " " + Text(n), after, body, stat);
  }

  /**
    A whole GET request: the file its path names is sent, or run when there is a '?' or it is
    executable, then without input; no byte behind the blank line is taken if and only if clear_head
    passes over every header.
   */
  lemma GetServed(line: string, w: string, gap: string, t: string, rest: string, file: string,
                  hs: seq<string>, body: string, stat: string -> FileInfo)
    requires IsLine(line, w, gap, t, rest) && t != "" && Fitting(line) && IsGet(w)
    requires file == "/home/lounuo/HTTP" + (if t[0] == '/' then UpTo(t, '?') else "") && stat(file) != Missing
    requires PlainLines(hs) && forall i :: 0 <= i < |hs| ==> hs[i] != ""
    ensures var (r, left) := Accepted(line + CRLF + (Wire(hs) + CRLF + body), stat);
            var path := if stat(file) == Directory then file + "htdocs/mysql_response.html" else file;
            && r == (if '?' in t || stat(file) == File(true)
                     then Cgi(Target(w, UpTo(t, '?'), QueryOf(t), true), path, "") else Static(path))
            && (left == body <==> forall i :: 0 <= i < |hs| ==> Passed(hs[i]))
  {
    hide Accepted, Parsed, SkipHead, UpTo, QueryOf, Passed, PathOf, SameIgnoringCase, FullPath, PlainLine, Wire, IsLine,
         IsPost, IsGet;
    LineRead(line, Wire(hs) + CRLF + body, stat);
    LfBehind(line, w, gap, t, rest);
    GetLineSplit(line + "\n", w, gap, t, rest + "\n");
    ClearHeadIff(hs, body);
    VerbsAre(w);
    FileNamed(t, UpTo(t, '?'));
  }
}
