/** Which clients are kept up to date, in whole runs of the replication system. */
module Monitoring {
  import Broadcasts
  import opened Consoles
  import CText
  import FdSets
  import opened Records
  import opened Replication
  import opened ReplicationRuns
  import opened RtmServers
  import Seqs
  import Sessions
  import opened Subnets
  import Tables
  import opened Wrappers

  /** A client that connects is kept up to date exactly when a slot is free and every write of its dump succeeds. */
  lemma GetsSlotIff(s: Server, fd: int, breakAt: nat)
    requires ValidSlots(s.slots, s.master, s.sockets, true) && Broadcasts.IsClient(fd, s.master) && fd !in s.sockets
    ensures Monitored(AcceptStep(s, fd, breakAt), fd) <==> FdSets.FREE in s.slots && |s.table| <= breakAt
  {
    AcceptMonitors(s, fd, breakAt);
  }

  /** A connection in a run: the client is known, has an empty table, and its socket holds the first records of the
      server's table as CREATE messages, as many as could be written; it is in a slot exactly when one was free and
      all could. */
  lemma ConnectedIs(w0: World, es: seq<Event>, fd: int, breakAt: nat)
    requires Initial(w0) && After(w0, es).server.up
    requires Broadcasts.IsClient(fd, w0.server.master) && fd !in After(w0, es).server.sockets
    ensures var s, w' := After(w0, es).server, Step(After(w0, es), Accept(fd, breakAt));
            && fd in w'.server.sockets && fd in w'.replicas && w'.replicas[fd] == Replica([], 0)
            && var sent := w'.server.sockets[fd].sent;
               && |sent| == (if breakAt < |s.table| then breakAt else |s.table|)
               && (forall i | 0 <= i < |sent| :: sent[i] == SyncMsg(Create, s.table[i]))
               && (w'.server.sockets[fd].broken <==> breakAt < |s.table|)
               && (Monitored(w'.server, fd) <==> FdSets.FREE in s.slots && breakAt >= |s.table|)
  {
    Reachable(w0, es);
    SameMaster(w0, es);
    GetsSlotIff(After(w0, es).server, fd, breakAt);
  }

  lemma {:induction false} SameMaster(w: World, es: seq<Event>)
    ensures After(w, es).server.master == w.server.master
  {
    if es != [] { SameMaster(w, es[..|es| - 1]); }
  }

  /** Left out: connected, in no slot, and sent no more than `sent`. */
  predicate LeftOut(s: Server, fd: int, sent: seq<SyncMsg>) {
    fd in s.sockets && fd !in s.slots && s.sockets[fd].sent == sent
  }

  lemma OutcomeLeavesOut(s: Server, o: Outcome, gone: set<int>, fd: int, sent: seq<SyncMsg>)
    requires ValidSlots(s.slots, s.master, s.sockets, true) && LeftOut(s, fd, sent)
    ensures LeftOut(OutcomeStep(s, o, gone), fd, sent)
  {
    FdSets.RemovedAll(s.slots, s.master);
  }

  lemma StepLeavesOut(w: World, e: Event, fd: int, sent: seq<SyncMsg>)
    requires Inv(w) && LeftOut(w.server, fd, sent)
    ensures LeftOut(Step(w, e).server, fd, sent)
  {
    if Enabled(w, e) {
      match e
      case Accept(q, breakAt) => AcceptMonitors(w.server, q, breakAt);
      case Line(line, gone) =>
        OutcomeLeavesOut(w.server, HandleLine(w.server.table, w.server.console, line), gone, fd, sent);
      case Receive(_) =>
    }
  }

  /** A client that was dropped, or found the table of descriptors full, is never written to again: the promise
      that connected clients see every change holds for monitored clients only. */
  lemma {:induction false} LeftOutForGood(w0: World, es: seq<Event>, n: nat, fd: int, sent: seq<SyncMsg>)
    requires Initial(w0) && n <= |es| && LeftOut(After(w0, es[..n]).server, fd, sent)
    ensures LeftOut(After(w0, es).server, fd, sent)
    decreases |es|
  {
    if n == |es| {
      assert es[..n] == es;
    } else {
      var es' := es[..|es| - 1];
      assert es'[..n] == es[..n];
      LeftOutForGood(w0, es', n, fd, sent);
      Reachable(w0, es');
      StepLeavesOut(After(w0, es'), es[|es| - 1], fd, sent);
    }
  }

  /** The promise that connected clients see every change, and when it is kept: in every run, once the server has
      committed something since a client connected, the client has been sent everything it should have been if and
      only if it is still in a slot. */
  lemma KeptUpToDateIff(w0: World, es: seq<Event>, fd: int)
    requires Initial(w0) && fd in After(w0, es).joined && After(w0, es).joined[fd] < |After(w0, es).log|
    ensures var w := After(w0, es);
            && fd in w.server.sockets
            && (w.server.sockets[fd].sent == Stream(w.log, w.joined[fd]) <==> Monitored(w.server, fd))
  {
    Reachable(w0, es);
    assert ValidClient(After(w0, es), fd);
  }

  // ---------------------------------------------------------------- a client that catches up

  /** `n` receives of a client. */
  function Receives(fd: int, n: nat): (es: seq<Event>)
    ensures |es| == n
  { seq(n, _ => Receive(fd)) }

  lemma NextReceive(w: World, fd: int, n: nat)
    ensures After(w, Receives(fd, n + 1)) == Step(After(w, Receives(fd, n)), Receive(fd))
  {
    AfterOneMore(w, Receives(fd, n), Receive(fd));
    assert Receives(fd, n + 1) == Receives(fd, n) + [Receive(fd)];
  }

  /** The client after reading its next `n` messages. */
  function Advanced(r: Replica, sent: seq<SyncMsg>, n: nat): Replica
    requires r.taken + n <= |sent|
  { Replica(Tables.Replayed(r.table, sent[r.taken..r.taken + n]), r.taken + n) }

  lemma AdvancedNext(r: Replica, sent: seq<SyncMsg>, n: nat)
    requires r.taken + n < |sent|
    ensures var r' := Advanced(r, sent, n);
            Advanced(r, sent, n + 1) == Replica(Tables.Applied(r'.table, sent[r'.taken]), r'.taken + 1)
  {
    Seqs.SliceNext(sent, r.taken, n);
  }

  lemma AdvancedToEnd(r: Replica, sent: seq<SyncMsg>)
    requires r.taken <= |sent|
    ensures Advanced(r, sent, |sent| - r.taken).table == Tables.Replayed(r.table, sent[r.taken..])
  {
    assert sent[r.taken..r.taken + (|sent| - r.taken)] == sent[r.taken..];
  }

  /** Each receive takes the next message in flight and does not concern the server. */
  lemma {:induction false} ReceivesAdvance(w: World, fd: int, n: nat)
    requires fd in w.replicas && fd in w.server.sockets && w.replicas[fd].taken + n <= |w.server.sockets[fd].sent|
    ensures var w' := After(w, Receives(fd, n));
            && w'.server == w.server && fd in w'.replicas
            && w'.replicas[fd] == Advanced(w.replicas[fd], w.server.sockets[fd].sent, n)
  {
    if n == 0 {
      assert w.server.sockets[fd].sent[w.replicas[fd].taken..w.replicas[fd].taken] == [];
    } else {
      ReceivesAdvance(w, fd, n - 1);
      NextReceive(w, fd, n - 1);
      AdvancedNext(w.replicas[fd], w.server.sockets[fd].sent, n - 1);
    }
  }

  lemma ReadsAll(w: World, fd: int)
    requires fd in w.replicas && fd in w.server.sockets && w.replicas[fd].taken <= |w.server.sockets[fd].sent|
    ensures var w' := After(w, Receives(fd, |InFlight(w, fd)|));
            && w'.server == w.server && fd in w'.replicas
            && w'.replicas[fd].table == Tables.Replayed(w.replicas[fd].table, InFlight(w, fd))
  {
    ReceivesAdvance(w, fd, |InFlight(w, fd)|);
    AdvancedToEnd(w.replicas[fd], w.server.sockets[fd].sent);
  }

  /** A monitored client that reads what is in flight to it has exactly the server's table. */
  lemma CatchesUp(w0: World, es: seq<Event>, fd: int)
    requires Initial(w0) && Monitored(After(w0, es).server, fd)
    ensures var w := After(w0, es);
            && fd in w.replicas && w.replicas[fd].taken <= |w.server.sockets[fd].sent|
            && var w' := After(w, Receives(fd, |InFlight(w, fd)|));
               && w'.server == w.server
               && fd in w'.replicas && w'.replicas[fd].table == w.server.table
  {
    Convergence(w0, es, fd);
    ReadsAll(After(w0, es), fd);
  }

  // ---------------------------------------------------------------- a client that is left out

  /** The record the run below creates. */
  function OneRecord(k: Key): Record { Record(k.destination, k.mask, k.destination, "") }

  /** The admin creates a record; then a client connects that is gone before the dump is written. */
  function LosingRun(k: Key, fd: int): seq<Event> {
    [Line("c", {}), Line(PrintSubnet(k), {}), Line(k.destination, {}), Line("", {}), Accept(fd, 0)]
  }

  lemma KeyCharacters(k: Key)
    requires ValidKey(k)
    ensures CText.OneLine(k.destination)
  {
    forall c | c in k.destination ensures c != CText.NUL { AddressCharacters(k.destination, c); }
  }

  /** A line that commits nothing and does not quit only moves the console. */
  lemma QuietStep(w: World, line: string, c: Console)
    requires w.server.up && Ordinary(w.server.console, line)
    requires HandleLine(w.server.table, w.server.console, line) == Stay(w.server.table, c)
    ensures Step(w, Line(line, {})) == w.(server := w.server.(console := c))
  {}

  /** A commit while no client is connected only changes the table and the log. */
  lemma LonelyCommit(w: World, line: string, o: Outcome)
    requires w.server.up && w.server.sockets == map[] && Ordinary(w.server.console, line)
    requires HandleLine(w.server.table, w.server.console, line) == o && o.sent.Some? && !o.quit
    ensures Step(w, Line(line, {}))
         == w.(server := w.server.(table := o.table, console := o.console), log := w.log + [o.sent.value])
  {
    assert Broadcasts.BroadcastSlots(w.server.slots, w.server.master, map[], {}) == w.server.slots;
    assert Broadcasts.BroadcastSockets(w.server.slots, w.server.master, map[], o.sent.value, {}) == map[];
  }

  /** The console before and after the last three lines. */
  lemma RecordCommitted(c: Console, k: Key)
    requires ValidKey(k) && c.mode.Creating? && c.entry.Gateway? && c.scratch.Key() == k
    ensures var c' := c.(scratch := c.scratch.(gateway := k.destination), entry := Oif);
            && Ordinary(c, k.destination) && HandleLine([], c, k.destination) == Stay([], c')
            && Ordinary(c', "") && HandleLine([], c', "").sent == Some(SyncMsg(Create, OneRecord(k)))
            && HandleLine([], c', "").table == [OneRecord(k)] && !HandleLine([], c', "").quit
  {
    KeyCharacters(k);
  }

  /** The first four events, from a server without records or clients. */
  lemma OneRecordCreated(w: World, k: Key, fd: int)
    requires ValidKey(k) && w.server.up && w.server.table == [] && w.server.console.mode.Idle?
    requires w.server.sockets == map[]
    ensures var w' := After(w, LosingRun(k, fd)[..4]);
            && w'.server.table == [OneRecord(k)] && w'.server.sockets == map[] && w'.server.up
            && w'.server.slots == w.server.slots && w'.server.master == w.server.master
  {
    var es, c0 := LosingRun(k, fd), w.server.console;
    var c1 := c0.(mode := Creating, entry := Subnet);
    var c2 := Console(Creating, Gateway, c1.scratch.(destination := k.destination, mask := k.mask));
    var c3 := c2.(scratch := c2.scratch.(gateway := k.destination), entry := Oif);
    Sessions.PrintedSubnetTyped([], c1, k);
    RecordCommitted(c2, k);
    var w1 := w.(server := w.server.(console := c1));
    var w2 := w.(server := w.server.(console := c2));
    var w3 := w.(server := w.server.(console := c3));
    QuietStep(w, "c", c1);
    QuietStep(w1, PrintSubnet(k), c2);
    QuietStep(w2, k.destination, c3);
    LonelyCommit(w3, "", HandleLine([], c3, ""));
    AfterFour(w, es);
  }

  lemma AfterFour(w: World, es: seq<Event>)
    requires |es| >= 4
    ensures After(w, es[..4]) == Step(Step(Step(Step(w, es[0]), es[1]), es[2]), es[3])
  {
    AfterOneMore(w, es[..3], es[3]);
    AfterOneMore(w, es[..2], es[2]);
    AfterOneMore(w, es[..1], es[1]);
    AfterOneMore(w, [], es[0]);
    assert es[..4] == es[..3] + [es[3]] && es[..3] == es[..2] + [es[2]] && es[..2] == es[..1] + [es[1]];
    assert es[..1] == [] + [es[0]];
  }

  /** A run that leaves a client out: it is connected, it has read everything ever sent to it, and yet the server has
      a record that it does not have. */
  lemma LeftOutExample(w0: World, k: Key, fd: int)
    requires Initial(w0) && ValidKey(k) && Broadcasts.IsClient(fd, w0.server.master)
    ensures var w := After(w0, LosingRun(k, fd));
            && w.server.up && w.server.table == [OneRecord(k)] && LeftOut(w.server, fd, [])
            && fd in w.replicas && w.replicas[fd] == Replica([], 0) && InFlight(w, fd) == []
            && Tables.Replayed(w.replicas[fd].table, InFlight(w, fd)) != w.server.table
  {
    var es := LosingRun(k, fd);
    OneRecordCreated(w0, k, fd);
    Reachable(w0, es[..4]);
    AfterOneMore(w0, es[..4], es[4]);
    assert es == es[..4] + [es[4]];
    GetsSlotIff(After(w0, es[..4]).server, fd, 0);
  }
}
