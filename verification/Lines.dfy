/** Reading lines off a connection: recv, get_line and clear_head of the server. */
module Lines {

  /** A connection: the bytes the peer sends, and how many of them recv has taken. */
  class Socket {
    const sent: string
    var pos: nat

    ghost predicate Valid()
      reads this
    {
      pos <= |sent|
    }

    /** What is still unread. */
    function Rest(): string
      requires Valid()
      reads this
    {
      sent[pos..]
    }

    constructor (bytes: string)
      ensures Valid() && Rest() == bytes && sent == bytes
    {
      sent := bytes;
      pos := 0;
    }

    /** recv of one byte: 1 and the byte, or 0 at the end, when ch keeps its value. */
    method Recv(ch: char) returns (n: int, ch': char)
      requires Valid()
      modifies this
      ensures Valid()
      ensures if old(Rest()) == "" then n == 0 && ch' == ch && Rest() == ""
              else n == 1 && ch' == old(Rest())[0] && Rest() == old(Rest())[1..]
    {
      if pos < |sent| {
        n, ch' := 1, sent[pos];
        pos := pos + 1;
      } else {
        n, ch' := 0, ch;
      }
    }

    /** recv with MSG_PEEK: the byte is not taken. */
    method Peek(ch: char) returns (ch': char)
      requires Valid()
      ensures ch' == if Rest() == "" then ch else Rest()[0]
    {
      ch' := if pos < |sent| then sent[pos] else ch;
    }
  }

  /** One call of get_line: what it stores, and how many bytes it takes. */
  datatype Line = Line(text: string, used: nat)

  /** The call with `room` cells left: a CR before LF is dropped, any other CR is replaced by the byte after it. */
  function NextLine(s: string, room: nat): (l: Line)
    ensures l.used <= |s| && |l.text| <= room
    ensures s != "" ==> l.used > 0
    ensures s != "" && room > 0 ==> l.text != ""
  {
    if s == "" then Line("", 0)
    else if room == 0 then Line("", 1)
    else if s[0] == '\n' then Line("\n", 1)
    else if s[0] == '\r' && |s| > 1 && s[1] == '\n' then
      var l := NextLine(s[1..], room); Line(l.text, l.used + 1)
    else
      var l := NextLine(s[1..], room - 1);
      Line([if s[0] == '\r' && |s| > 1 then s[1] else s[0]] + l.text, l.used + 1)
  }

  /** What is stored so far and what the rest will give make up the goal. */
  ghost predicate Reading(goal: Line, s: string, stored: string, rest: string, size: nat) {
    && |stored| <= size && |rest| <= |s| && rest == s[|s| - |rest|..]
    && goal.text == stored + NextLine(rest, size - |stored|).text
    && goal.used == |s| - |rest| + NextLine(rest, size - |stored|).used
  }

  ghost predicate Finished(goal: Line, s: string, stored: string, rest: string) {
    && |rest| <= |s| && rest == s[|s| - |rest|..]
    && goal.text == stored && goal.used == |s| - |rest|
  }

  lemma Begin(s: string, size: nat)
    ensures Reading(NextLine(s, size), s, "", s, size)
  {}

  lemma Tail(s: string, rest: string)
    requires 0 < |rest| <= |s| && rest == s[|s| - |rest|..]
    ensures rest[1..] == s[|s| - (|rest| - 1)..]
  {}

  /** Nothing more is read, or the buffer is full and one byte too many has been taken. */
  lemma Stop(goal: Line, s: string, stored: string, rest: string, size: nat)
    requires Reading(goal, s, stored, rest, size) && (rest == "" || |stored| == size)
    ensures Finished(goal, s, stored, if rest == "" then rest else rest[1..])
  {
    if rest != "" { Tail(s, rest); }
  }

  lemma Done(goal: Line, s: string, stored: string, rest: string)
    requires Finished(goal, s, stored, rest)
    ensures goal.text == stored && goal.used <= |s| && rest == s[goal.used..]
  {}

  /** The CR of a CRLF is passed over. */
  lemma PassCr(goal: Line, s: string, stored: string, rest: string, size: nat)
    requires Reading(goal, s, stored, rest, size) && |stored| < size
    requires |rest| > 1 && rest[0] == '\r' && rest[1] == '\n'
    ensures Reading(goal, s, stored, rest[1..], size)
  {
    Tail(s, rest);
  }

  /** A byte is stored; after LF the line is finished. */
  lemma Store(goal: Line, s: string, stored: string, rest: string, size: nat, ch: char)
    requires Reading(goal, s, stored, rest, size) && |stored| < size && rest != ""
    requires ch == (if rest[0] == '\r' && |rest| > 1 then rest[1] else rest[0])
    requires rest[0] == '\r' ==> ch != '\n'
    ensures if ch == '\n' then Finished(goal, s, stored + [ch], rest[1..])
            else Reading(goal, s, stored + [ch], rest[1..], size)
  {
    Tail(s, rest);
    var l := NextLine(rest[1..], size - |stored| - 1);
    if ch != '\n' { assert stored + ([ch] + l.text) == (stored + [ch]) + l.text; }
  }

  /** A buffer of n cells that holds t, with NULs behind it. */
  function Filled(t: string, n: nat): string {
    t + seq(if n > |t| then n - |t| else 0, _ => '\0')
  }

  lemma FillNext(t: string, c: char, n: nat)
    requires |t| < n
    ensures Filled(t, n)[|t| := c] == Filled(t + [c], n)
  {}

  method Clear(buf: array<char>)
    modifies buf
    ensures buf[..] == Filled("", buf.Length)
  {
    var k := 0;
    while k < buf.Length
      invariant 0 <= k <= buf.Length
      invariant forall i :: 0 <= i < k ==> buf[i] == '\0'
    {
      buf[k] := '\0';
      k := k + 1;
    }
  }

  /** get_line into a buffer of buf.Length cells, cleared first; the count of stored bytes comes back. */
  method GetLine(sock: Socket, buf: array<char>) returns (index: nat)
    requires sock.Valid() && buf.Length > 0
    modifies sock, buf
    ensures sock.Valid()
    ensures var l := NextLine(old(sock.Rest()), buf.Length - 1);
            && index == |l.text| && buf[..] == Filled(l.text, buf.Length)
            && sock.Rest() == old(sock.Rest())[l.used..]
  {
    hide NextLine, Reading, Filled, Finished;
    ghost var s := sock.Rest();
    ghost var goal, stored, rest := NextLine(s, buf.Length - 1), "", s;
    Begin(s, buf.Length - 1);
    Clear(buf);
    var ch, n := '\0', 0;
    index := 0;
    while true
      invariant sock.Valid() && sock.Rest() == rest && index == |stored| <= buf.Length - 1
      invariant buf[..] == Filled(stored, buf.Length)
      invariant Reading(goal, s, stored, rest, buf.Length - 1)
      decreases |rest|
    {
      n, ch := sock.Recv(ch);
      if !(n > 0 && index < buf.Length - 1) {
        Stop(goal, s, stored, rest, buf.Length - 1);
        rest := sock.Rest();
        Done(goal, s, stored, rest);
        break;
      }
      if ch == '\r' {
        ch := sock.Peek(ch);
        if ch == '\n' {
          PassCr(goal, s, stored, rest, buf.Length - 1);
          rest := rest[1..];
          continue;
        }
      }
      Store(goal, s, stored, rest, buf.Length - 1, ch);
      FillNext(stored, ch, buf.Length);
      stored, rest := stored + [ch], rest[1..];
      buf[index] := ch;
      index := index + 1;
      if ch == '\n' {
        Done(goal, s, stored, rest);
        break;
      }
    }
  }
}
