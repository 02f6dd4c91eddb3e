/** epoll_server: descriptors, registrations and data_buf records over every run of the event loop. */
module EventLoop {

  /** What an epoll registration carries: nothing to read from but the descriptor itself, or a record to write from. */
  datatype Reg = Listening | Reading | Writing(rec: nat)

  /** The fields of a data_buf the loop looks at. */
  datatype Record = Record(fd: int, errNum: int, cgi: bool)

  /** A reported event: the descriptor, its registration data, and whether it is ready at all. */
  datatype Event = Event(fd: int, data: Reg, ready: bool)

  /** What the world answers while one event is handled. */
  datatype World = World(
    accepted: int,      // accept(), negative when it fails
    added: bool,        // epoll_ctl ADD succeeds
    memory: bool,       // malloc succeeds
    errNum: int,        // accept_request's result
    cgi: bool,          // and the CGI flag it leaves
    found: bool,        // stat on the path succeeds
    errorSent: bool)    // error_response gets to its end, and closes the socket

  /**
    The kernel's and the heap's view.  Connections and records are numbered in the order they come,
    so that a reused descriptor or address is not mistaken for an old one.
   */
  datatype State = State(
    listen: int,
    open: set<int>,            // descriptors that are open
    reg: map<int, Reg>,        // registrations
    conn: map<int, nat>,       // the connection behind an open descriptor
    connections: nat,
    records: map<nat, Record>, // allocated and not freed
    allocations: nat,
    freed: multiset<nat>,      // every free, by record
    sent: multiset<nat>,       // every response, by connection
    stopped: bool)

  function Start(listen: int): State {
    State(listen, {listen}, map[listen := Listening], map[], 0, map[], 0, multiset{}, multiset{}, false)
  }

  /** close(): the descriptor goes, and with it its registration; nothing happens to one that is not open. */
  function Close(s: State, fd: int): State {
    s.(open := s.open - {fd}, reg := s.reg - {fd}, conn := s.conn - {fd})
  }

  function Free(s: State, rec: nat): State {
    s.(records := s.records - {rec}, freed := s.freed + multiset{rec})
  }

  function Send(s: State, fd: int): State {
    if fd in s.conn then s.(sent := s.sent + multiset{s.conn[fd]}) else s
  }

  /** The listening socket is ready. */
  function AcceptStep(s: State, w: World): State {
    if w.accepted < 0 then s else
    var fd := w.accepted;
    var t := s.(open := s.open + {fd}, conn := s.conn[fd := s.connections], connections := s.connections + 1);
    if w.added then t.(reg := t.reg[fd := Reading]) else Close(t, fd)
  }

  /** A connection is readable: a record is filled by accept_request and the registration turned to writing. */
  function ReadStep(s: State, fd: int, w: World): State {
    if !w.memory then s else
    s.(records := s.records[s.allocations := Record(fd, w.errNum, w.cgi)], allocations := s.allocations + 1,
       reg := s.reg[fd := Writing(s.allocations)])
  }

  /** The response, or the error page, which may close the socket on its own. */
  function AnswerStep(s: State, r: Record, w: World): State {
    var t := if r.errNum >= 0 then Send(s, r.fd) else s;
    if r.errNum > 0 && w.errorSent then Close(t, r.fd) else t
  }

  /** The registration is deleted, the descriptor closed, the record freed. */
  function ReleaseStep(s: State, fd: int, rec: nat): State {
    Free(Close(s.(reg := s.reg - {fd}), fd), rec)
  }

  /** A connection is writable: the response goes out, the registration, the descriptor and the record go away. */
  function WriteStep(s: State, rec: nat, w: World): State
    requires rec in s.records
  {
    var r := s.records[rec];
    if r.errNum == 0 && !r.cgi && !w.found then s.(stopped := true)
    else ReleaseStep(AnswerStep(s, r, w), r.fd, rec)
  }

  /** One event of a batch. */
  function Step(s: State, e: Event, w: World): State {
    if s.stopped || !e.ready then s
    else match e.data
      case Listening => AcceptStep(s, w)
      case Reading => ReadStep(s, e.fd, w)
      case Writing(rec) => if rec in s.records then WriteStep(s, rec, w) else s
  }

  /** The kernel hands out descriptors that are not in use. */
  predicate Fair(s: State, e: Event, w: World) {
    e.data == Listening ==> w.accepted !in s.open
  }

  // ---------- the invariant ----------

  /** Open descriptors and registrations are the same; only the listening socket listens. */
  ghost predicate Descriptors(s: State) {
    && s.reg.Keys == s.open && s.listen in s.reg
    && (forall fd :: fd in s.reg ==> (s.reg[fd] == Listening <==> fd == s.listen))
  }

  /** Write registrations and live records are in one-to-one correspondence. */
  ghost predicate Paired(s: State) {
    && (forall fd :: fd in s.reg && s.reg[fd].Writing? ==>
          s.reg[fd].rec in s.records && s.records[s.reg[fd].rec].fd == fd)
    && (forall rec :: rec in s.records ==> s.records[rec].fd in s.reg && s.reg[s.records[rec].fd] == Writing(rec))
  }

  /** Every record allocated so far is either live or has been freed exactly once. */
  ghost predicate FreedOnce(s: State) {
    && (forall rec :: rec in s.records ==> rec < s.allocations)
    && (forall rec: nat :: s.freed[rec] == if rec < s.allocations && rec !in s.records then 1 else 0)
  }

  /** Every open connection has its own number and no response yet; no connection ever gets two. */
  ghost predicate AnsweredOnce(s: State) {
    && s.conn.Keys == s.open - {s.listen}
    && (forall fd :: fd in s.conn ==> s.conn[fd] < s.connections && s.sent[s.conn[fd]] == 0)
    && (forall fd, fd' :: fd in s.conn && fd' in s.conn && s.conn[fd] == s.conn[fd'] ==> fd == fd')
    && (forall c: nat :: s.sent[c] <= 1 && (c >= s.connections ==> s.sent[c] == 0))
  }

  ghost predicate Inv(s: State) {
    Descriptors(s) && Paired(s) && FreedOnce(s) && AnsweredOnce(s)
  }

  /** The event was reported from the registration its descriptor still has. */
  ghost predicate Current(s: State, e: Event) {
    e.fd in s.reg && s.reg[e.fd] == e.data
  }

  lemma StartInv(listen: int)
    ensures Inv(Start(listen))
  {}

  /** A connection that cannot be registered leaves no trace but its number. */
  lemma AcceptFields(s: State, w: World)
    requires Inv(s) && w.accepted !in s.open && w.accepted >= 0
    ensures var fd := w.accepted;
            AcceptStep(s, w)
            == if w.added then s.(open := s.open + {fd}, reg := s.reg[fd := Reading],
                                  conn := s.conn[fd := s.connections], connections := s.connections + 1)
               else s.(connections := s.connections + 1)
  {
    var fd := w.accepted;
    assert s.open + {fd} - {fd} == s.open && s.reg - {fd} == s.reg && s.conn[fd := s.connections] - {fd} == s.conn;
  }

  lemma AcceptKeeps(s: State, w: World)
    requires Inv(s) && w.accepted !in s.open
    ensures Inv(AcceptStep(s, w))
  {
    if w.accepted >= 0 {
      AcceptFields(s, w);
      AcceptKeepsAll(s, AcceptStep(s, w), w.accepted, w.added);
    }
  }

  lemma AcceptKeepsAll(s: State, t: State, fd: int, added: bool)
    requires Inv(s) && fd !in s.open
    requires t == if added then s.(open := s.open + {fd}, reg := s.reg[fd := Reading],
                                   conn := s.conn[fd := s.connections], connections := s.connections + 1)
                  else s.(connections := s.connections + 1)
    ensures Inv(t)
  {}

  lemma ReadKeeps(s: State, fd: int, w: World)
    requires Inv(s) && fd in s.reg && s.reg[fd] == Reading
    ensures Inv(ReadStep(s, fd, w))
  {}

  /** Handling a writable connection ends it: what is left does not know its descriptor or its record. */
  lemma WriteEnds(s: State, rec: nat, w: World)
    requires Inv(s) && rec in s.records && !WriteStep(s, rec, w).stopped
    ensures var t, r := WriteStep(s, rec, w), s.records[rec];
            && r.fd != s.listen && r.fd in s.conn
            && t.listen == s.listen && t.connections == s.connections && t.allocations == s.allocations
            && t.open == s.open - {r.fd} && t.reg == s.reg - {r.fd} && t.conn == s.conn - {r.fd}
            && t.records == s.records - {rec} && t.freed == s.freed + multiset{rec}
            && t.sent == s.sent + if r.errNum >= 0 then multiset{s.conn[r.fd]} else multiset{}
  {
    var r := s.records[rec];
    assert s.reg[r.fd] == Writing(rec);
    assert s.reg - {r.fd} - {r.fd} == s.reg - {r.fd};
    assert s.open - {r.fd} - {r.fd} == s.open - {r.fd};
    assert s.conn - {r.fd} - {r.fd} == s.conn - {r.fd};
  }

  lemma WriteStops(s: State, rec: nat, w: World)
    requires rec in s.records && !s.stopped && WriteStep(s, rec, w).stopped
    ensures WriteStep(s, rec, w) == s.(stopped := true)
  {}

  lemma WriteKeeps(s: State, rec: nat, w: World)
    requires Inv(s) && rec in s.records && !s.stopped
    ensures Inv(WriteStep(s, rec, w))
  {
    hide WriteStep, Descriptors, Paired, FreedOnce, AnsweredOnce;
    if WriteStep(s, rec, w).stopped {
      WriteStops(s, rec, w);
      StopKeeps(s);
    } else {
      WriteKeepsLinks(s, rec, w);
      WriteKeepsCounts(s, rec, w);
    }
  }

  lemma StopKeeps(s: State)
    requires Inv(s)
    ensures Inv(s.(stopped := true))
  {}

  lemma WriteKeepsLinks(s: State, rec: nat, w: World)
    requires Inv(s) && rec in s.records && !WriteStep(s, rec, w).stopped
    ensures Descriptors(WriteStep(s, rec, w)) && Paired(WriteStep(s, rec, w))
  {
    hide WriteStep;
    WriteEnds(s, rec, w);
  }

  lemma WriteKeepsCounts(s: State, rec: nat, w: World)
    requires Inv(s) && rec in s.records && !WriteStep(s, rec, w).stopped
    ensures FreedOnce(WriteStep(s, rec, w)) && AnsweredOnce(WriteStep(s, rec, w))
  {
    hide WriteStep;
    WriteEnds(s, rec, w);
  }

  /** Every event keeps the invariant. */
  lemma StepKeeps(s: State, e: Event, w: World)
    requires Inv(s) && Current(s, e) && Fair(s, e, w)
    ensures Inv(Step(s, e, w))
  {
    if !s.stopped && e.ready {
      match e.data
      case Listening => AcceptKeeps(s, w);
      case Reading => ReadKeeps(s, e.fd, w);
      case Writing(rec) => WriteKeeps(s, rec, w);
    }
  }

  // ---------- whole runs ----------

  /** A descriptor that is not the event's keeps registration, connection and record, so a batch stays current. */
  lemma OthersKept(s: State, e: Event, w: World, other: Event)
    requires Inv(s) && Current(s, e) && Fair(s, e, w) && Current(s, other) && other.fd != e.fd
    ensures var t := Step(s, e, w);
            && Current(t, other)
            && (other.fd in s.conn ==> other.fd in t.conn && t.conn[other.fd] == s.conn[other.fd])
            && (other.data.Writing? ==> other.data.rec in s.records && other.data.rec in t.records
                                        && t.records[other.data.rec] == s.records[other.data.rec])
  {
    if e.data.Writing? && !s.stopped && e.ready && !WriteStep(s, e.data.rec, w).stopped {
      WriteEnds(s, e.data.rec, w);
    }
  }

  /** epoll_wait reports each descriptor at most once, with its registration at that moment. */
  ghost predicate Reported(s: State, events: seq<Event>) {
    && (forall i :: 0 <= i < |events| ==> Current(s, events[i]))
    && (forall i, j :: 0 <= i < j < |events| ==> events[i].fd != events[j].fd)
  }

  /** The for loop over a batch. */
  function RunBatch(s: State, events: seq<Event>, worlds: seq<World>): State
    requires |events| == |worlds|
    decreases |events|
  {
    if events == [] then s else RunBatch(Step(s, events[0], worlds[0]), events[1..], worlds[1..])
  }

  ghost predicate FairBatch(s: State, events: seq<Event>, worlds: seq<World>)
    requires |events| == |worlds|
    decreases |events|
  {
    events == [] ||
    (Fair(s, events[0], worlds[0]) && FairBatch(Step(s, events[0], worlds[0]), events[1..], worlds[1..]))
  }

  /** One event on, the rest of the batch is still current. */
  lemma BatchStep(s: State, events: seq<Event>, worlds: seq<World>)
    requires |events| == |worlds| > 0 && Inv(s) && Reported(s, events) && FairBatch(s, events, worlds)
    ensures var t := Step(s, events[0], worlds[0]);
            && Inv(t) && Reported(t, events[1..]) && FairBatch(t, events[1..], worlds[1..])
            && RunBatch(s, events, worlds) == RunBatch(t, events[1..], worlds[1..])
            && (events[0].data.Writing? ==> events[0].data.rec in s.records)
  {
    StepKeeps(s, events[0], worlds[0]);
    var t := Step(s, events[0], worlds[0]);
    forall i | 0 <= i < |events[1..]| ensures Current(t, events[1..][i]) {
      OthersKept(s, events[0], worlds[0], events[i + 1]);
    }
  }

  lemma BatchDone(s: State)
    ensures RunBatch(s, [], []) == s
  {}

  /** A batch keeps the invariant, in whatever order its events come. */
  lemma {:induction false} BatchKeeps(s: State, events: seq<Event>, worlds: seq<World>)
    requires |events| == |worlds| && Inv(s) && Reported(s, events) && FairBatch(s, events, worlds)
    ensures Inv(RunBatch(s, events, worlds))
    decreases |events|
  {
    if events != [] {
      BatchStep(s, events, worlds);
      BatchKeeps(Step(s, events[0], worlds[0]), events[1..], worlds[1..]);
    }
  }

  datatype Batch = Batch(events: seq<Event>, worlds: seq<World>)

  /** The server's loop over the batches epoll_wait returns. */
  function Run(s: State, batches: seq<Batch>): State
    requires forall i :: 0 <= i < |batches| ==> |batches[i].events| == |batches[i].worlds|
    decreases |batches|
  {
    if batches == [] then s else Run(RunBatch(s, batches[0].events, batches[0].worlds), batches[1..])
  }

  /** Each batch was reported, fairly, in the state the server was in then. */
  ghost predicate Possible(s: State, batches: seq<Batch>)
    requires forall i :: 0 <= i < |batches| ==> |batches[i].events| == |batches[i].worlds|
    decreases |batches|
  {
    batches != [] ==>
      && Reported(s, batches[0].events) && FairBatch(s, batches[0].events, batches[0].worlds)
      && Possible(RunBatch(s, batches[0].events, batches[0].worlds), batches[1..])
  }

  lemma {:induction false} RunKeeps(s: State, batches: seq<Batch>)
    requires forall i :: 0 <= i < |batches| ==> |batches[i].events| == |batches[i].worlds|
    requires Inv(s) && Possible(s, batches)
    ensures Inv(Run(s, batches))
    decreases |batches|
  {
    if batches != [] {
      BatchKeeps(s, batches[0].events, batches[0].worlds);
      RunKeeps(RunBatch(s, batches[0].events, batches[0].worlds), batches[1..]);
    }
  }

  /**
    Over every run: write registrations pair off with live records, every other record was freed once,
    no connection got two responses.
   */
  lemma EveryRun(listen: int, batches: seq<Batch>)
    requires forall i :: 0 <= i < |batches| ==> |batches[i].events| == |batches[i].worlds|
    requires Possible(Start(listen), batches)
    ensures var s := Run(Start(listen), batches);
            && s.reg.Keys == s.open
            && Paired(s)
            && (forall rec: nat :: rec < s.allocations ==> s.freed[rec] == if rec in s.records then 0 else 1)
            && (forall c: nat :: s.sent[c] <= 1)
  {
    StartInv(listen);
    RunKeeps(Start(listen), batches);
  }

  /**
    A record is freed in the very step in which its descriptor is closed and unregistered, and no
    descriptor is closed otherwise.
   */
  lemma FreedWhenClosed(s: State, e: Event, w: World)
    requires Inv(s) && Current(s, e) && Fair(s, e, w)
    ensures var t := Step(s, e, w);
            if s.open <= t.open then t.freed == s.freed
            else
              && e.data.Writing? && t.open == s.open - {e.fd} && e.fd !in t.reg
              && e.data.rec in s.records && e.data.rec !in t.records
              && t.freed == s.freed + multiset{e.data.rec}
              && t.sent[s.conn[e.fd]] == if s.records[e.data.rec].errNum >= 0 then 1 else 0
  {
    if !s.stopped && e.ready && e.data.Writing? && !WriteStep(s, e.data.rec, w).stopped {
      WriteEnds(s, e.data.rec, w);
      assert e.fd in s.open && e.fd !in s.open - {e.fd};
    }
  }

  // ---------- the server itself ----------

  /** Nothing is left of the descriptor. */
  ghost predicate Gone(s: State, fd: int) {
    fd !in s.open && fd !in s.reg && fd !in s.conn
  }

  /** Every other descriptor is as it was. */
  ghost predicate SameBut(s: State, t: State, fd: int) {
    forall other :: other != fd ==>
      && (other in s.open <==> other in t.open)
      && (other in s.reg <==> other in t.reg) && (other in s.reg ==> s.reg[other] == t.reg[other])
      && (other in s.conn <==> other in t.conn) && (other in s.conn ==> s.conn[other] == t.conn[other])
  }

  lemma StoppedSame(s: State, r: Record, rec: nat, w: World)
    ensures ReleaseStep(AnswerStep(s, r, w), r.fd, rec).stopped == s.stopped
  {}

  lemma FreedSame(s: State, r: Record, w: World)
    ensures AnswerStep(s, r, w).freed == s.freed
  {}

  class Server {
    const listen: int
    var open: set<int>
    var reg: map<int, Reg>
    var conn: map<int, nat>
    var connections: nat
    var records: map<nat, Record>
    var allocations: nat
    var freed: multiset<nat>
    var sent: multiset<nat>
    var stopped: bool

    function View(): State
      reads this
    {
      State(listen, open, reg, conn, connections, records, allocations, freed, sent, stopped)
    }

    constructor (sock: int)
      ensures View() == Start(sock)
    {
      listen := sock;
      open, reg, conn, connections := {sock}, map[sock := Listening], map[], 0;
      records, allocations, freed, sent, stopped := map[], 0, multiset{}, multiset{}, false;
    }

    method CloseFd(fd: int)
      modifies this
      ensures View() == Close(old(View()), fd)
      ensures Gone(View(), fd) && SameBut(old(View()), View(), fd)
    {
      open, reg, conn := open - {fd}, reg - {fd}, conn - {fd};
    }

    method Respond(fd: int)
      modifies this
      ensures View() == Send(old(View()), fd)
      ensures forall c: nat :: sent[c] == old(sent)[c] + if fd in conn && conn[fd] == c then 1 else 0
    {
      if fd in conn {
        sent := sent + multiset{conn[fd]};
      }
    }

    method OnAccept(w: World)
      modifies this
      ensures View() == AcceptStep(old(View()), w)
      ensures SameBut(old(View()), View(), w.accepted)
      ensures w.accepted < 0 ==> View() == old(View())
      ensures w.accepted >= 0 && w.added ==> w.accepted in open && reg[w.accepted] == Reading
      ensures w.accepted >= 0 && !w.added ==> Gone(View(), w.accepted)
    {
      var fd := w.accepted;
      if fd < 0 {
        return;
      }
      open, conn, connections := open + {fd}, conn[fd := connections], connections + 1;
      if w.added {
        reg := reg[fd := Reading];
      } else {
        CloseFd(fd);
      }
    }

    method OnReadable(fd: int, w: World)
      modifies this
      ensures View() == ReadStep(old(View()), fd, w)
      ensures SameBut(old(View()), View(), fd) && open == old(open)
      ensures !w.memory ==> View() == old(View())
      ensures w.memory ==> fd in reg && reg[fd] == Writing(old(allocations)) && old(allocations) in records
                           && records[old(allocations)] == Record(fd, w.errNum, w.cgi)
    {
      if !w.memory {
        return;
      }
      var rec := allocations;
      allocations := allocations + 1;
      records := records[rec := Record(fd, w.errNum, w.cgi)];
      reg := reg[fd := Writing(rec)];
    }

    method Answer(r: Record, w: World)
      modifies this
      ensures View() == AnswerStep(old(View()), r, w)
    {
      hide Send, Close, Gone, SameBut;
      if r.errNum == 0 {
        Respond(r.fd);
      } else if r.errNum > 0 {
        Respond(r.fd);
        if w.errorSent {
          CloseFd(r.fd);
        }
      }
    }

    method Release(fd: int, rec: nat)
      modifies this
      ensures View() == ReleaseStep(old(View()), fd, rec)
      ensures Gone(View(), fd) && rec !in records && freed[rec] == old(freed)[rec] + 1
      ensures SameBut(old(View()), View(), fd)
    {
      reg := reg - {fd};
      CloseFd(fd);
      records, freed := records - {rec}, freed + multiset{rec};
    }

    method OnWritable(rec: nat, w: World)
      requires rec in records
      modifies this
      ensures View() == WriteStep(old(View()), rec, w)
      ensures stopped <==> old(stopped) || (old(records)[rec].errNum == 0 && !old(records)[rec].cgi && !w.found)
      ensures old(stopped) || stopped
              || (Gone(View(), old(records)[rec].fd) && rec !in records && freed[rec] == old(freed)[rec] + 1)
    {
      hide AnswerStep, ReleaseStep, Gone, SameBut;
      var r := records[rec];
      StoppedSame(View(), r, rec, w);
      if r.errNum == 0 && !r.cgi && !w.found {
        stopped := true;
        return;
      }
      FreedSame(View(), r, w);
      Answer(r, w);
      Release(r.fd, rec);
    }

    /** The loop over the events of a batch; a failed stat ends it, and the server. */
    method HandleBatch(events: seq<Event>, worlds: seq<World>)
      requires |events| == |worlds|
      requires Inv(View()) && Reported(View(), events) && FairBatch(View(), events, worlds)
      modifies this
      ensures View() == RunBatch(old(View()), events, worlds) && Inv(View())
    {
      hide RunBatch, FairBatch, Inv, Reported;
      ghost var goal := RunBatch(View(), events, worlds);
      BatchKeeps(View(), events, worlds);
      var i := 0;
      while i < |events|
        invariant 0 <= i <= |events| && goal == RunBatch(View(), events[i..], worlds[i..])
        invariant Inv(View()) && Reported(View(), events[i..]) && FairBatch(View(), events[i..], worlds[i..])
      {
        ghost var s := View();
        BatchStep(s, events[i..], worlds[i..]);
        var e, w := events[i], worlds[i];
        if !stopped && e.ready {
          match e.data {
            case Listening => OnAccept(w);
            case Reading => OnReadable(e.fd, w);
            case Writing(rec) => OnWritable(rec, w);
          }
        }
        assert events[i..][1..] == events[i + 1..] && worlds[i..][1..] == worlds[i + 1..];
        i := i + 1;
      }
      BatchDone(View());
      assert events[i..] == [] && worlds[i..] == [];
    }

    /** The loop around epoll_wait, over the batches it returns. */
    method Serve(batches: seq<Batch>)
      requires forall i :: 0 <= i < |batches| ==> |batches[i].events| == |batches[i].worlds|
      requires Inv(View()) && Possible(View(), batches)
      modifies this
      ensures View() == Run(old(View()), batches) && Inv(View())
    {
      hide RunBatch, FairBatch, Inv, Reported;
      ghost var goal := Run(View(), batches);
      var i := 0;
      while i < |batches|
        invariant 0 <= i <= |batches| && goal == Run(View(), batches[i..])
        invariant Inv(View()) && Possible(View(), batches[i..])
      {
        assert batches[i..][0] == batches[i] && batches[i..][1..] == batches[i + 1..];
        HandleBatch(batches[i].events, batches[i].worlds);
        i := i + 1;
      }
      assert batches[i..] == [];
    }
  }
}
