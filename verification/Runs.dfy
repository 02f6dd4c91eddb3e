/** Whole runs of epoll_server: what becomes of every event, and when the server stops. */
module Runs {
  import opened EventLoop

  ghost predicate Paced(batches: seq<Batch>) {
    forall i :: 0 <= i < |batches| ==> |batches[i].events| == |batches[i].worlds|
  }

  // ---------- when the server stops ----------

  /** Exactly a plain file that stat does not find stops the server; an event that is not ready does nothing. */
  lemma StopsIff(s: State, e: Event, w: World)
    requires Inv(s) && Current(s, e) && !s.stopped
    ensures e.data.Writing? ==> e.data.rec in s.records
    ensures !e.ready ==> Step(s, e, w) == s
    ensures Step(s, e, w).stopped
            <==> e.ready && e.data.Writing? && !w.found
                 && s.records[e.data.rec].errNum == 0 && !s.records[e.data.rec].cgi
  {
    if e.ready && e.data.Writing? { StoppedSame(s, s.records[e.data.rec], e.data.rec, w); }
  }

  lemma StoppedStays(s: State, e: Event, w: World)
    requires s.stopped
    ensures Step(s, e, w) == s
  {}

  lemma {:induction false} BatchStoppedStays(s: State, events: seq<Event>, worlds: seq<World>)
    requires |events| == |worlds| && s.stopped
    ensures RunBatch(s, events, worlds) == s
    decreases |events|
  {
    if events != [] {
      StoppedStays(s, events[0], worlds[0]);
      BatchStoppedStays(s, events[1..], worlds[1..]);
    }
  }

  /** Once it has stopped nothing happens any more. */
  lemma {:induction false} RunStoppedStays(s: State, batches: seq<Batch>)
    requires Paced(batches) && s.stopped
    ensures Run(s, batches) == s
    decreases |batches|
  {
    if batches != [] {
      BatchStoppedStays(s, batches[0].events, batches[0].worlds);
      RunStoppedStays(s, batches[1..]);
    }
  }

  lemma {:induction false} BatchGoesOn(s: State, events: seq<Event>, worlds: seq<World>)
    requires |events| == |worlds| && Inv(s) && Reported(s, events) && FairBatch(s, events, worlds) && !s.stopped
    requires forall k :: 0 <= k < |worlds| ==> worlds[k].found
    ensures !RunBatch(s, events, worlds).stopped
    decreases |events|
  {
    hide Inv, Reported, Fair, Current, Step;
    if events != [] {
      BatchStep(s, events, worlds);
      FirstCurrent(s, events);
      StopsIff(s, events[0], worlds[0]);
      BatchGoesOn(Step(s, events[0], worlds[0]), events[1..], worlds[1..]);
    }
  }

  lemma FirstCurrent(s: State, events: seq<Event>)
    requires Reported(s, events) && events != []
    ensures Current(s, events[0])
  {}

  /** If every stat succeeds the server never stops. */
  lemma {:induction false} RunGoesOn(s: State, batches: seq<Batch>)
    requires Paced(batches) && Inv(s) && Possible(s, batches) && !s.stopped
    requires forall i, k :: 0 <= i < |batches| && 0 <= k < |batches[i].worlds| ==> batches[i].worlds[k].found
    ensures !Run(s, batches).stopped
    decreases |batches|
  {
    hide Inv, Reported, FairBatch;
    if batches != [] {
      BatchGoesOn(s, batches[0].events, batches[0].worlds);
      BatchKeeps(s, batches[0].events, batches[0].worlds);
      RunGoesOn(RunBatch(s, batches[0].events, batches[0].worlds), batches[1..]);
    }
  }

  // ---------- runs are put together from their parts ----------

  lemma BatchOne(s: State, e: Event, w: World)
    ensures RunBatch(s, [e], [w]) == Step(s, e, w)
  {
    BatchDone(Step(s, e, w));
    assert [e][1..] == [] && [w][1..] == [];
  }

  lemma {:induction false} BatchJoin(s: State, es: seq<Event>, ws: seq<World>, es': seq<Event>, ws': seq<World>)
    requires |es| == |ws| && |es'| == |ws'|
    ensures RunBatch(s, es + es', ws + ws') == RunBatch(RunBatch(s, es, ws), es', ws')
    decreases |es|
  {
    hide Step;
    if es == [] {
      assert es + es' == es' && ws + ws' == ws';
    } else {
      BatchJoin(Step(s, es[0], ws[0]), es[1..], ws[1..], es', ws');
      assert (es + es')[1..] == es[1..] + es' && (ws + ws')[1..] == ws[1..] + ws';
    }
  }

  lemma RunOne(s: State, b: Batch)
    requires |b.events| == |b.worlds|
    ensures Run(s, [b]) == RunBatch(s, b.events, b.worlds)
  {
    assert [b][1..] == [];
  }

  lemma {:induction false} RunJoin(s: State, bs: seq<Batch>, cs: seq<Batch>)
    requires Paced(bs) && Paced(cs)
    ensures Run(s, bs + cs) == Run(Run(s, bs), cs)
    decreases |bs|
  {
    hide RunBatch;
    if bs == [] {
      assert bs + cs == cs;
    } else {
      assert (bs + cs)[1..] == bs[1..] + cs;
      RunJoin(RunBatch(s, bs[0].events, bs[0].worlds), bs[1..], cs);
    }
  }

  // ---------- a connection that has been dealt with ----------

  /** The record is gone, the connection closed, and n responses went out on it. */
  ghost predicate Served(s: State, rec: nat, c: nat, n: nat) {
    && rec < s.allocations && rec !in s.records
    && c < s.connections && (forall fd :: fd in s.conn ==> s.conn[fd] != c) && s.sent[c] == n
  }

  /** The responses owed for a record: one, or none when there was no request. */
  function Owed(r: Record): nat {
    if r.errNum >= 0 then 1 else 0
  }

  lemma StepServes(s: State, e: Event, w: World)
    requires Inv(s) && Current(s, e) && e.ready && e.data.Writing? && !Step(s, e, w).stopped
    ensures e.data.rec in s.records && e.fd in s.conn
    ensures Served(Step(s, e, w), e.data.rec, s.conn[e.fd], Owed(s.records[e.data.rec]))
  {
    WriteEnds(s, e.data.rec, w);
  }

  lemma StepServed(s: State, e: Event, w: World, rec: nat, c: nat, n: nat)
    requires Inv(s) && Current(s, e) && Fair(s, e, w) && Served(s, rec, c, n)
    ensures Served(Step(s, e, w), rec, c, n)
  {
    if !s.stopped && e.ready {
      match e.data
      case Listening => if w.accepted >= 0 { AcceptFields(s, w); }
      case Reading =>
      case Writing(r) => if !WriteStep(s, r, w).stopped { WriteEnds(s, r, w); }
    }
  }

  lemma {:induction false} BatchServed(s: State, events: seq<Event>, worlds: seq<World>, rec: nat, c: nat, n: nat)
    requires |events| == |worlds| && Inv(s) && Reported(s, events) && FairBatch(s, events, worlds)
    requires Served(s, rec, c, n)
    ensures Served(RunBatch(s, events, worlds), rec, c, n)
    decreases |events|
  {
    hide Inv, Reported, Fair, Current, Step, Served;
    if events != [] {
      BatchStep(s, events, worlds);
      FirstCurrent(s, events);
      StepServed(s, events[0], worlds[0], rec, c, n);
      BatchServed(Step(s, events[0], worlds[0]), events[1..], worlds[1..], rec, c, n);
    }
  }

  lemma {:induction false} RunServed(s: State, batches: seq<Batch>, rec: nat, c: nat, n: nat)
    requires Paced(batches) && Inv(s) && Possible(s, batches) && Served(s, rec, c, n)
    ensures Served(Run(s, batches), rec, c, n)
    decreases |batches|
  {
    hide Inv, Reported, FairBatch, Served;
    if batches != [] {
      BatchServed(s, batches[0].events, batches[0].worlds, rec, c, n);
      BatchKeeps(s, batches[0].events, batches[0].worlds);
      RunServed(RunBatch(s, batches[0].events, batches[0].worlds), batches[1..], rec, c, n);
    }
  }

  lemma RecordThere(s: State, e: Event)
    requires Inv(s) && Current(s, e) && e.data.Writing?
    ensures e.data.rec in s.records && e.fd in s.conn
  {}

  /** Every ready write event of a batch is served. */
  lemma {:induction false} BatchServes(s: State, events: seq<Event>, worlds: seq<World>, j: nat)
    requires |events| == |worlds| && Inv(s) && Reported(s, events) && FairBatch(s, events, worlds)
    requires j < |events| && events[j].ready && events[j].data.Writing? && !RunBatch(s, events, worlds).stopped
    ensures events[j].data.rec in s.records && events[j].fd in s.conn
    ensures Served(RunBatch(s, events, worlds), events[j].data.rec, s.conn[events[j].fd],
                   Owed(s.records[events[j].data.rec]))
    decreases |events|
  {
    hide Inv, Fair, Current, Step, Served, FairBatch, Owed;
    var e, w := events[0], worlds[0];
    var t := Step(s, e, w);
    BatchStep(s, events, worlds);
    RecordThere(s, events[j]);
    if t.stopped { BatchStoppedStays(t, events[1..], worlds[1..]); }
    if j == 0 {
      StepServes(s, e, w);
      BatchServed(t, events[1..], worlds[1..], e.data.rec, s.conn[e.fd], Owed(s.records[e.data.rec]));
    } else {
      FirstFair(s, events, worlds);
      OthersKept(s, e, w, events[j]);
      BatchServes(t, events[1..], worlds[1..], j - 1);
    }
  }

  lemma FirstFair(s: State, events: seq<Event>, worlds: seq<World>)
    requires |events| == |worlds| > 0 && FairBatch(s, events, worlds)
    ensures Fair(s, events[0], worlds[0])
  {}

  // ---------- what else a batch does ----------

  /** Every readable connection gets a record to be written from, unless there is no memory. */
  lemma {:induction false} BatchReads(s: State, events: seq<Event>, worlds: seq<World>, j: nat)
    requires |events| == |worlds| && Inv(s) && Reported(s, events) && FairBatch(s, events, worlds)
    requires j < |events| && events[j].ready && events[j].data.Reading? && !RunBatch(s, events, worlds).stopped
    ensures var t, fd, w := RunBatch(s, events, worlds), events[j].fd, worlds[j];
            && fd in t.reg
            && if w.memory then t.reg[fd].Writing? && t.reg[fd].rec in t.records
                                && t.records[t.reg[fd].rec] == Record(fd, w.errNum, w.cgi)
               else t.reg[fd] == Reading
    decreases |events|
  {
    hide Inv, Fair, Step, FairBatch;
    var e, w := events[0], worlds[0];
    var t := Step(s, e, w);
    BatchStep(s, events, worlds);
    if t.stopped { BatchStoppedStays(t, events[1..], worlds[1..]); }
    if j == 0 {
      var other := StepReads(s, e, w);
      BatchLeaves(t, events[1..], worlds[1..], other);
    } else {
      FirstFair(s, events, worlds);
      OthersKept(s, e, w, events[j]);
      BatchReads(t, events[1..], worlds[1..], j - 1);
    }
  }

  /** The registration a readable connection has from then on. */
  lemma StepReads(s: State, e: Event, w: World) returns (other: Event)
    requires Inv(s) && Current(s, e) && e.ready && e.data.Reading? && !Step(s, e, w).stopped
    ensures var t := Step(s, e, w);
            && Current(t, other) && other.fd == e.fd
            && if w.memory then other.data.Writing? && other.data.rec in t.records
                                && t.records[other.data.rec] == Record(e.fd, w.errNum, w.cgi)
               else other.data == Reading
  {
    other := Event(e.fd, if w.memory then Writing(s.allocations) else Reading, true);
  }

  /** Events on other descriptors leave a registration and its record as they are. */
  lemma {:induction false} BatchLeaves(s: State, events: seq<Event>, worlds: seq<World>, other: Event)
    requires |events| == |worlds| && Inv(s) && Reported(s, events) && FairBatch(s, events, worlds)
    requires Current(s, other) && forall k :: 0 <= k < |events| ==> events[k].fd != other.fd
    ensures var t := RunBatch(s, events, worlds);
            && Current(t, other)
            && (other.data.Writing? ==> other.data.rec in s.records && other.data.rec in t.records
                                        && t.records[other.data.rec] == s.records[other.data.rec])
    decreases |events|
  {
    hide Inv, Fair, Step, FairBatch, Current;
    if events == [] {
      if other.data.Writing? { RecordThere(s, other); }
    } else {
      BatchStep(s, events, worlds);
      FirstCurrent(s, events);
      FirstFair(s, events, worlds);
      OthersKept(s, events[0], worlds[0], other);
      BatchLeaves(Step(s, events[0], worlds[0]), events[1..], worlds[1..], other);
    }
  }

  /** A new connection is registered for reading, unless accept or epoll_ctl fails. */
  lemma {:induction false} BatchAccepts(s: State, events: seq<Event>, worlds: seq<World>, j: nat)
    requires |events| == |worlds| && Inv(s) && Reported(s, events) && FairBatch(s, events, worlds)
    requires j < |events| && events[j].ready && events[j].data.Listening? && !RunBatch(s, events, worlds).stopped
    requires worlds[j].accepted >= 0 && worlds[j].added
    ensures var t, fd := RunBatch(s, events, worlds), worlds[j].accepted; fd in t.reg && t.reg[fd] == Reading
    decreases |events|
  {
    hide Inv, Step, FairBatch;
    var e, w := events[0], worlds[0];
    var t := Step(s, e, w);
    BatchStep(s, events, worlds);
    FirstFair(s, events, worlds);
    if t.stopped { BatchStoppedStays(t, events[1..], worlds[1..]); }
    if j == 0 {
      StepAccepts(s, e, w);
      OpenIs(s);
      BatchLeaves(t, events[1..], worlds[1..], Event(w.accepted, Reading, true));
    } else {
      OthersKept(s, e, w, events[j]);
      BatchAccepts(t, events[1..], worlds[1..], j - 1);
    }
  }

  lemma OpenIs(s: State)
    requires Inv(s)
    ensures s.reg.Keys == s.open
  {}

  lemma StepAccepts(s: State, e: Event, w: World)
    requires Inv(s) && Current(s, e) && Fair(s, e, w) && e.ready && e.data.Listening? && !Step(s, e, w).stopped
    requires w.accepted >= 0 && w.added
    ensures Current(Step(s, e, w), Event(w.accepted, Reading, true))
  {}

  // ---------- whole runs ----------

  /** A run up to a batch, the batch, and the rest. */
  lemma {:induction false} RunParts(s: State, batches: seq<Batch>, i: nat)
    requires Paced(batches) && Inv(s) && Possible(s, batches) && i < |batches|
    ensures var pre, b := Run(s, batches[..i]), batches[i];
            var post := RunBatch(pre, b.events, b.worlds);
            && Inv(pre) && Reported(pre, b.events) && FairBatch(pre, b.events, b.worlds)
            && post == Run(s, batches[..i + 1])
            && Inv(post) && Possible(post, batches[i + 1..]) && Run(s, batches) == Run(post, batches[i + 1..])
    decreases i
  {
    hide Inv, Reported, FairBatch;
    var first := RunBatch(s, batches[0].events, batches[0].worlds);
    BatchKeeps(s, batches[0].events, batches[0].worlds);
    if i == 0 {
      assert batches[..0] == [] && batches[..1] == [batches[0]];
      RunOne(s, batches[0]);
    } else {
      RunParts(first, batches[1..], i - 1);
      assert batches[..i][1..] == batches[1..][..i - 1] && batches[..i + 1][1..] == batches[1..][..i];
      assert batches[1..][i..] == batches[i + 1..];
    }
  }

  lemma NotStoppedBefore(s: State, batches: seq<Batch>)
    requires Paced(batches) && !Run(s, batches).stopped
    ensures !s.stopped
  {
    if s.stopped { RunStoppedStays(s, batches); }
  }

  lemma FreedOnceIs(s: State, rec: nat)
    requires Inv(s) && rec < s.allocations && rec !in s.records
    ensures s.freed[rec] == 1
  {}

  /**
    If every stat succeeds, then in every run every ready write event has its record freed, exactly
    once, its descriptor's connection answered once, or not at all when there was no request, and the
    server goes on.
   */
  lemma EveryAnswer(listen: int, batches: seq<Batch>, i: nat, j: nat)
    requires Paced(batches) && Possible(Start(listen), batches)
    requires forall i, k :: 0 <= i < |batches| && 0 <= k < |batches[i].worlds| ==> batches[i].worlds[k].found
    requires i < |batches| && j < |batches[i].events|
    requires batches[i].events[j].ready && batches[i].events[j].data.Writing?
    ensures var pre, t, e := Run(Start(listen), batches[..i]), Run(Start(listen), batches), batches[i].events[j];
            && !t.stopped
            && e.data.rec in pre.records && e.data.rec !in t.records && t.freed[e.data.rec] == 1
            && e.fd in pre.conn && (forall fd :: fd in t.conn ==> t.conn[fd] != pre.conn[e.fd])
            && t.sent[pre.conn[e.fd]] == if pre.records[e.data.rec].errNum >= 0 then 1 else 0
  {
    hide Inv, Reported, FairBatch, Possible, Run, RunBatch;
    var s, b := Start(listen), batches[i];
    StartInv(listen);
    RunGoesOn(s, batches);
    RunParts(s, batches, i);
    var pre := Run(s, batches[..i]);
    var post := RunBatch(pre, b.events, b.worlds);
    NotStoppedBefore(post, batches[i + 1..]);
    BatchServes(pre, b.events, b.worlds, j);
    var e := b.events[j];
    RunServed(post, batches[i + 1..], e.data.rec, pre.conn[e.fd], Owed(pre.records[e.data.rec]));
    RunKeeps(s, batches);
    FreedOnceIs(Run(s, batches), e.data.rec);
  }

  /** When a batch is done, every connection that was readable has a record, and every new one is registered. */
  lemma EveryArrival(listen: int, batches: seq<Batch>, i: nat, j: nat)
    requires Paced(batches) && Possible(Start(listen), batches)
    requires forall i, k :: 0 <= i < |batches| && 0 <= k < |batches[i].worlds| ==> batches[i].worlds[k].found
    requires i < |batches| && j < |batches[i].events|
    requires batches[i].events[j].ready && !batches[i].events[j].data.Writing?
    ensures var post, e, w := Run(Start(listen), batches[..i + 1]), batches[i].events[j], batches[i].worlds[j];
            && (e.data == Reading && w.memory ==>
                  && e.fd in post.reg && post.reg[e.fd].Writing? && post.reg[e.fd].rec in post.records
                  && post.records[post.reg[e.fd].rec] == Record(e.fd, w.errNum, w.cgi))
            && (e.data == Reading && !w.memory ==> e.fd in post.reg && post.reg[e.fd] == Reading)
            && (e.data == Listening && w.accepted >= 0 && w.added ==>
                  w.accepted in post.reg && post.reg[w.accepted] == Reading)
  {
    hide Inv, Reported, FairBatch, Possible, Run, RunBatch;
    var s, b := Start(listen), batches[i];
    StartInv(listen);
    RunGoesOn(s, batches);
    RunParts(s, batches, i);
    var pre := Run(s, batches[..i]);
    NotStoppedBefore(RunBatch(pre, b.events, b.worlds), batches[i + 1..]);
    var e, w := b.events[j], b.worlds[j];
    if e.data == Reading { BatchReads(pre, b.events, b.worlds, j); }
    if e.data == Listening && w.accepted >= 0 && w.added { BatchAccepts(pre, b.events, b.worlds, j); }
  }
}
