/** The replication system: one server, any number of clients, arbitrary interleavings and broken writes.
    The channel to a client is the history of what was written to its socket together with how much of it the
    client has read; what lies between is in flight. */
module Replication {
  import opened Broadcasts
  import opened Consoles
  import opened FdSets
  import opened Records
  import opened RtmServers
  import opened Tables

  /** A client: its table and the number of messages it has read. */
  datatype Replica = Replica(table: Table, taken: nat)

  /** `log` (every committed operation) and `joined` (its length when a client connected) are history: no step
      reads them. */
  datatype World = World(server: Server, replicas: map<int, Replica>, log: seq<SyncMsg>, joined: map<int, nat>)

  datatype Event =
    | Accept(fd: int, breakAt: nat)
    | Line(line: string, gone: set<int>)
    | Receive(fd: int)

  /** `accept` returns a descriptor that is not open; lines are ordinary; a client reads what is in flight. */
  predicate Enabled(w: World, e: Event) {
    match e
    case Accept(fd, _) => w.server.up && IsClient(fd, w.server.master) && fd !in w.server.sockets
    case Line(line, _) => w.server.up && Ordinary(w.server.console, line)
    case Receive(fd) => fd in w.replicas && fd in w.server.sockets && w.replicas[fd].taken < |w.server.sockets[fd].sent|
  }

  function AfterOutcome(w: World, o: Outcome, gone: set<int>): World {
    w.(server := OutcomeStep(w.server, o, gone),
       log := if o.sent.Some? then w.log + [o.sent.value] else w.log)
  }

  function Next(w: World, e: Event): World
    requires Enabled(w, e)
  {
    match e
    case Accept(fd, breakAt) =>
      w.(server := AcceptStep(w.server, fd, breakAt),
         replicas := w.replicas[fd := Replica([], 0)],
         joined := w.joined[fd := |w.log|])
    case Line(line, gone) => AfterOutcome(w, HandleLine(w.server.table, w.server.console, line), gone)
    case Receive(fd) =>
      var r := w.replicas[fd];
      w.(replicas := w.replicas[fd := Replica(Applied(r.table, w.server.sockets[fd].sent[r.taken]), r.taken + 1)])
  }

  /** The state `main` starts in; what the uninitialised entry and record hold is arbitrary. */
  ghost predicate Initial(w: World) {
    && w.server.table == [] && w.server.console.mode == Idle && w.server.up
    && w.server.master > 0 && w.server.slots == [0, w.server.master] + NoClients()
    && w.server.sockets == map[] && w.replicas == map[] && w.joined == map[] && w.log == []
  }

  // ---------------------------------------------------------------- the invariant

  /** The server's table after `n` commits. */
  function TableAt(log: seq<SyncMsg>, n: nat): Table
    requires n <= |log|
  { Replayed([], log[..n]) }

  /** Everything a client that joined after `n` commits should ever be sent. */
  function Stream(log: seq<SyncMsg>, n: nat): seq<SyncMsg>
    requires n <= |log|
  { DumpMsgs(TableAt(log, n)) + log[n..] }

  ghost predicate ValidTables(log: seq<SyncMsg>) { forall n: nat :: n <= |log| ==> ValidTable(TableAt(log, n)) }

  ghost predicate ValidCommits(log: seq<SyncMsg>) {
    forall n: nat :: n < |log| ==> WellFounded(TableAt(log, n), log[n])
  }

  /** Every commit met the table it expected, and every table on the way was well formed. */
  ghost predicate ValidLog(log: seq<SyncMsg>) { ValidTables(log) && ValidCommits(log) }

  predicate Monitored(s: Server, fd: int) { fd in s.sockets && fd in s.slots }

  /** One client: it was sent a prefix of its stream, all of it while it is monitored and not all of it if it was
      not monitored at some commit, and its table is the replay of what it has read. */
  predicate ValidChannel(log: seq<SyncMsg>, joined: nat, sock: Socket, monitored: bool, r: Replica) {
    && joined <= |log|
    && sock.sent <= Stream(log, joined)
    && (monitored ==> sock.sent == Stream(log, joined) && !sock.broken)
    && (!monitored && joined < |log| ==> sock.sent != Stream(log, joined))
    && r.taken <= |sock.sent|
    && r.table == Replayed([], sock.sent[..r.taken])
  }

  predicate ValidClient(w: World, fd: int)
    requires fd in w.server.sockets && fd in w.replicas && fd in w.joined
  {
    ValidChannel(w.log, w.joined[fd], w.server.sockets[fd], Monitored(w.server, fd), w.replicas[fd])
  }

  ghost predicate Inv(w: World) {
    match w
    case World(s, replicas, log, joined) =>
      && ConsoleInv(s.table, s.console)
      && ValidSlots(s.slots, s.master, s.sockets, s.up)
      && s.table == TableAt(log, |log|)
      && ValidLog(log)
      && s.sockets.Keys == replicas.Keys == joined.Keys
      && (forall fd | fd in s.sockets :: ValidClient(w, fd))
  }

  lemma InitialInv(w: World)
    requires Initial(w)
    ensures Inv(w)
  {}

  // ---------------------------------------------------------------- the log

  lemma LogGrows(log: seq<SyncMsg>, m: SyncMsg, n: nat)
    requires n <= |log|
    ensures TableAt(log + [m], n) == TableAt(log, n)
    ensures Stream(log + [m], n) == Stream(log, n) + [m]
    ensures TableAt(log + [m], |log| + 1) == Applied(TableAt(log, |log|), m)
  {
    assert (log + [m])[..n] == log[..n];
    assert (log + [m])[n..] == log[n..] + [m];
    assert (log + [m])[..|log| + 1] == log + [m] && (log + [m])[..|log|] == log && log[..|log|] == log;
  }

  lemma ValidTablesGrow(log: seq<SyncMsg>, m: SyncMsg)
    requires ValidTables(log) && ValidTable(Applied(TableAt(log, |log|), m))
    ensures ValidTables(log + [m])
  {
    forall n: nat | n <= |log| + 1 ensures ValidTable(TableAt(log + [m], n)) {
      LogGrows(log, m, if n <= |log| then n else |log|);
    }
  }

  lemma ValidCommitsGrow(log: seq<SyncMsg>, m: SyncMsg)
    requires ValidCommits(log) && WellFounded(TableAt(log, |log|), m)
    ensures ValidCommits(log + [m])
  {
    var log' := log + [m];
    forall n: nat | n < |log'| ensures WellFounded(TableAt(log', n), log'[n]) { LogGrows(log, m, n); }
  }

  lemma ValidLogGrows(log: seq<SyncMsg>, m: SyncMsg)
    requires ValidLog(log) && WellFounded(TableAt(log, |log|), m)
    ensures ValidLog(log + [m])
  {
    assert ValidTable(TableAt(log, |log|));
    AppliedKeepsTable(TableAt(log, |log|), m);
    ValidTablesGrow(log, m);
    ValidCommitsGrow(log, m);
  }

  // ---------------------------------------------------------------- every step keeps the invariant

  lemma ChannelJoin(log: seq<SyncMsg>, breakAt: nat, monitored: bool)
    requires monitored ==> |TableAt(log, |log|)| <= breakAt
    ensures ValidChannel(log, |log|, DumpedSocket(TableAt(log, |log|), breakAt), monitored, Replica([], 0))
  {
    assert log[|log|..] == [];
    assert Stream(log, |log|) == DumpMsgs(TableAt(log, |log|));
  }

  lemma AcceptMonitors(s: Server, fd: int, breakAt: nat)
    requires ValidSlots(s.slots, s.master, s.sockets, true) && IsClient(fd, s.master) && fd !in s.sockets
    ensures var s' := AcceptStep(s, fd, breakAt);
            && (Monitored(s', fd) <==> FREE in s.slots && |s.table| <= breakAt)
            && (forall q | q != fd :: Monitored(s', q) <==> Monitored(s, q))
  {
    var s' := AcceptStep(s, fd, breakAt);
    AcceptKeepsSlots(s, fd, breakAt);
    AddedDistinct(s.slots, fd);
    RemovedAll(Added(s.slots, fd), fd);
    forall q | q != fd && Monitored(s, q) ensures Monitored(s', q) {
      var i :| 0 <= i < |s.slots| && s.slots[i] == q;
      assert s'.slots[i] == q;
    }
  }

  lemma AcceptKeepsInv(w: World, fd: int, breakAt: nat)
    requires Inv(w) && Enabled(w, Accept(fd, breakAt))
    ensures Inv(Next(w, Accept(fd, breakAt)))
  {
    var w' := Next(w, Accept(fd, breakAt));
    AcceptKeepsSlots(w.server, fd, breakAt);
    AcceptMonitors(w.server, fd, breakAt);
    ChannelJoin(w.log, breakAt, Monitored(w'.server, fd));
    forall q | q in w'.server.sockets && q != fd ensures ValidClient(w', q) {
      assert ValidClient(w, q);
    }
  }

  lemma ChannelReceive(log: seq<SyncMsg>, joined: nat, sock: Socket, monitored: bool, r: Replica)
    requires ValidChannel(log, joined, sock, monitored, r) && r.taken < |sock.sent|
    ensures ValidChannel(log, joined, sock, monitored, Replica(Applied(r.table, sock.sent[r.taken]), r.taken + 1))
  {
    ReplayedNext([], sock.sent, r.taken);
  }

  /** A client the system knows in every one of its parts. */
  predicate Known(w: World, fd: int) { fd in w.server.sockets && fd in w.replicas && fd in w.joined }

  lemma ReceiveKeepsClient(w: World, fd: int, q: int)
    requires Enabled(w, Receive(fd)) && Known(w, q) && ValidClient(w, q)
    ensures var w' := Next(w, Receive(fd)); Known(w', q) && ValidClient(w', q)
  {
    if q == fd {
      ChannelReceive(w.log, w.joined[fd], w.server.sockets[fd], Monitored(w.server, fd), w.replicas[fd]);
    }
  }

  lemma ReceiveKeepsInv(w: World, fd: int)
    requires Inv(w) && Enabled(w, Receive(fd))
    ensures Inv(Next(w, Receive(fd)))
  {
    forall q | q in w.server.sockets
      ensures var w' := Next(w, Receive(fd)); Known(w', q) && ValidClient(w', q)
    {
      ReceiveKeepsClient(w, fd, q);
    }
  }

  lemma ChannelBroadcast(log: seq<SyncMsg>, joined: nat, sock: Socket, monitored: bool, r: Replica, m: SyncMsg,
                         breaks: bool)
    requires ValidChannel(log, joined, sock, monitored, r)
    ensures ValidChannel(log + [m], joined, if monitored then Written(sock, m, breaks) else sock,
                         monitored && !breaks, r)
  {
    LogGrows(log, m, joined);
    assert (sock.sent + [m])[..r.taken] == sock.sent[..r.taken];
  }

  /** A commit keeps exactly the monitored clients that can be written to. */
  lemma StillMonitored(s: Server, m: SyncMsg, gone: set<int>, fd: int)
    requires ValidSlots(s.slots, s.master, s.sockets, true) && fd in s.sockets
    ensures fd in BroadcastSlots(s.slots, s.master, s.sockets, gone) <==> fd in s.slots && !Misses(s.sockets, fd, gone)
  {
    BroadcastExact(s.slots, s.master, s.sockets, m, gone, fd);
  }

  lemma BroadcastKeepsClient(w: World, o: Outcome, gone: set<int>, fd: int)
    requires ValidSlots(w.server.slots, w.server.master, w.server.sockets, true)
    requires o.sent.Some? && Known(w, fd) && ValidClient(w, fd)
    ensures var w' := AfterOutcome(w, o, gone); Known(w', fd) && ValidClient(w', fd)
  {
    var s, m := w.server, o.sent.value;
    StillMonitored(s, m, gone, fd);
    ChannelBroadcast(w.log, w.joined[fd], s.sockets[fd], Monitored(s, fd), w.replicas[fd], m, fd in gone);
  }

  lemma BroadcastKeepsInv(w: World, o: Outcome, gone: set<int>)
    requires Inv(w) && w.server.up && GoodOutcome(w.server.table, o) && o.sent.Some?
    ensures Inv(AfterOutcome(w, o, gone))
  {
    var w' := AfterOutcome(w, o, gone);
    BroadcastKeepsSlots(w.server.slots, w.server.master, w.server.sockets, o.sent.value, gone, true);
    LogGrows(w.log, o.sent.value, |w.log|);
    ValidLogGrows(w.log, o.sent.value);
    forall fd | fd in w.server.sockets ensures Known(w', fd) && ValidClient(w', fd) {
      assert ValidClient(w, fd);
      BroadcastKeepsClient(w, o, gone, fd);
    }
  }

  lemma QuietKeepsInv(w: World, o: Outcome, gone: set<int>)
    requires Inv(w) && w.server.up && GoodOutcome(w.server.table, o) && o.sent.None?
    ensures Inv(AfterOutcome(w, o, gone))
  {
    var w' := AfterOutcome(w, o, gone);
    ShutdownKeepsSlots(w.server.slots, w.server.master, w.server.sockets);
    RemovedAll(w.server.slots, w.server.master);
    forall fd | fd in w'.server.sockets ensures ValidClient(w', fd) {
      assert ValidClient(w, fd);
      assert Monitored(w'.server, fd) <==> Monitored(w.server, fd);
    }
  }

  lemma OutcomeKeepsInv(w: World, o: Outcome, gone: set<int>)
    requires Inv(w) && w.server.up && GoodOutcome(w.server.table, o)
    ensures Inv(AfterOutcome(w, o, gone))
  {
    if o.sent.Some? {
      BroadcastKeepsInv(w, o, gone);
    } else {
      QuietKeepsInv(w, o, gone);
    }
  }

  lemma LineKeepsWorld(w: World, line: string, gone: set<int>)
    requires Inv(w) && Enabled(w, Line(line, gone))
    ensures Inv(Next(w, Line(line, gone)))
  {
    LineKeepsInv(w.server.table, w.server.console, line);
    OutcomeKeepsInv(w, HandleLine(w.server.table, w.server.console, line), gone);
  }

  lemma StepKeepsInv(w: World, e: Event)
    requires Inv(w) && Enabled(w, e)
    ensures Inv(Next(w, e))
  {
    match e
    case Accept(fd, breakAt) => AcceptKeepsInv(w, fd, breakAt);
    case Line(line, gone) => LineKeepsWorld(w, line, gone);
    case Receive(fd) => ReceiveKeepsInv(w, fd);
  }
}
