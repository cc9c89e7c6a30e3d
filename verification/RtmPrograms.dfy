/** The `main` functions of rtm_server.c and rtm_client.c over a whole run of the replication system: what their
    objects hold at every turn of their loops is what the step relation says. */
module RtmPrograms {
  import Broadcasts
  import opened Consoles
  import opened CText
  import FdSets
  import Records
  import opened Replication
  import opened ReplicationRuns
  import RtmClients
  import opened RtmServers
  import Seqs

  /** Once the server has exited, no event changes it. */
  lemma {:induction false} StoppedForGood(w0: World, es: seq<Event>, n: nat)
    requires n <= |es| && !After(w0, es[..n]).server.up
    ensures After(w0, es).server == After(w0, es[..n]).server
    decreases |es|
  {
    if n == |es| {
      assert es[..n] == es;
    } else {
      var es' := es[..|es| - 1];
      assert es'[..n] == es[..n];
      StoppedForGood(w0, es', n);
    }
  }

  /** At some turn of the run the quit command was typed at the menu of the running server. */
  ghost predicate QuitTyped(w0: World, es: seq<Event>) { exists n :: QuitAt(w0, es, n) }

  predicate QuitAt(w0: World, es: seq<Event>, n: int) {
    0 <= n < |es| && es[n].Line? && (es[n].line == "q" || es[n].line == "Q")
    && After(w0, es[..n]).server.up && After(w0, es[..n]).server.console.mode.Idle?
  }

  lemma QuitStops(w: World, e: Event)
    requires w.server.up
    ensures !Step(w, e).server.up <==> e.Line? && (e.line == "q" || e.line == "Q") && w.server.console.mode.Idle?
  {
    if e.Line? && Enabled(w, e) { StopsIff(w.server, e.line, e.gone); }
  }

  /** The server of a run has stopped exactly when it was told to. */
  lemma {:induction false} StoppedIff(w0: World, es: seq<Event>)
    requires Initial(w0)
    ensures !After(w0, es).server.up <==> QuitTyped(w0, es)
  {
    if es != [] {
      var n := |es| - 1;
      StoppedIff(w0, es[..n]);
      forall i | 0 <= i < n ensures QuitAt(w0, es[..n], i) <==> QuitAt(w0, es, i) { assert es[..n][..i] == es[..i]; }
      if After(w0, es[..n]).server.up {
        QuitStops(After(w0, es[..n]), es[n]);
        assert QuitAt(w0, es, n) <==> !After(w0, es).server.up;
      } else {
        var i :| QuitAt(w0, es[..n], i);
        assert QuitAt(w0, es, i);
      }
    }
  }

  /** `memset` and `read`: the line the admin typed, its newline, and zeros. */
  method ReadLine(buffer: array<char>, line: string)
    requires OneLine(line) && |line| < buffer.Length
    modifies buffer
    ensures HoldsLine(buffer[..]) && LineIn(buffer[..]) == line
  {
    var typed := line + "\n";
    StrNCpy(buffer, typed, buffer.Length);
    assert buffer[..][|line|] == '\n';
    TypedText(buffer[..], line);
  }

  lemma TypedText(buf: seq<char>, line: string)
    requires OneLine(line) && |line| < |buf|
    requires forall i | 0 <= i < |buf| :: buf[i] == if i < |line + "\n"| then (line + "\n")[i] else NUL
    ensures HoldsLine(buf) && LineIn(buf) == line
  {
    var typed := line + "\n";
    assert buf[..|typed|] == typed && '\n' in buf by { assert buf[|line|] == '\n'; }
    Seqs.IndexOfUnique(buf, NUL, |typed|);
    Seqs.IndexOfUnique(typed, '\n', |line|);
  }

  /** One turn of the loop of the server's `main`, on whatever `select` wakes it up for. */
  method Turn(server: RtmServer, buffer: array<char>, e: Event)
    requires server.Valid() && buffer.Length == BUF_SIZE
    modifies server, server.rtm, server.rtm.live, server.record, server.sender.net, server.sender.fds.slots, buffer
    ensures server.Handled(ServerStep(old(server.View()), e))
    ensures fresh(server.rtm.live - old(server.rtm.live))
  {
    match e
    case Accept(fd, breakAt) =>
      if Broadcasts.IsClient(fd, server.sender.master) && fd !in server.sender.net.sockets {
        server.HandleConnection(fd, breakAt);
      }
    case Line(line, gone) =>
      if Ordinary(server.View().console, line) {
        ReadLine(buffer, line);
        server.HandleAdminInput(buffer, gone);
      }
    case Receive(_) =>
  }

  /** The server's part of an event. */
  function ServerStep(s: Server, e: Event): Server {
    match e
    case Accept(fd, breakAt) =>
      if Broadcasts.IsClient(fd, s.master) && fd !in s.sockets then AcceptStep(s, fd, breakAt) else s
    case Line(line, gone) => if Ordinary(s.console, line) then LineStep(s, line, gone) else s
    case Receive(_) => s
  }

  lemma StepIsServerStep(w: World, e: Event)
    requires w.server.up
    ensures Step(w, e).server == ServerStep(w.server, e)
  {}

  /** A state in which the server's `main` can start. */
  ghost function Started(s: Server): World { World(s, map[], [], map[]) }

  /** A turn takes the server from one moment of the run to the next. */
  method NextTurn(server: RtmServer, buffer: array<char>, ghost w0: World, es: seq<Event>, i: nat)
    requires i < |es| && server.up && server.Handled(After(w0, es[..i]).server) && buffer.Length == BUF_SIZE
    modifies server, server.rtm, server.rtm.live, server.record, server.sender.net, server.sender.fds.slots, buffer
    ensures server.Handled(After(w0, es[..i + 1]).server)
    ensures fresh(server.rtm.live - old(server.rtm.live))
  {
    AfterOneMore(w0, es[..i], es[i]);
    assert es[..i + 1] == es[..i] + [es[i]];
    StepIsServerStep(After(w0, es[..i]), es[i]);
    Turn(server, buffer, es[i]);
  }

  /** What the server hands to `select`: the admin's terminal and the master socket are always watched. */
  method Watch(server: RtmServer) returns (watched: set<int>, nfds: int)
    requires server.Valid()
    ensures {0, server.sender.master} <= watched && forall fd | fd in watched :: fd < nfds
  {
    watched, nfds := FdSets.WatchedSet(server.sender.fds);
    assert server.View().slots[0] == 0 && server.View().slots[1] == server.sender.master;
  }

  /** `main` of rtm_server.c over the events of a run. While the server is up, at every turn every record of its table
      has one owner, allocations less frees are the size of the table, stdin and the master socket are watched, and the
      state is that of the run; once it has quit, everything is freed and the socket is closed and unlinked. */
  method ServeRun(master: int, es: seq<Event>) returns (server: RtmServer, ghost w0: World)
    requires master > 0
    ensures Initial(w0) && w0.server.master == master
    ensures server.Handled(After(w0, es).server)
    ensures if QuitTyped(w0, es) then server.Stopped() else server.Valid()
  {
    server := new RtmServer(master);
    w0 := Started(server.View());
    var buffer := new char[BUF_SIZE];
    var i := 0;
    while i < |es| && server.up
      invariant i <= |es|
      invariant server.Handled(After(w0, es[..i]).server)
      invariant fresh(server.rtm.live)
    {
      var _, _ := Watch(server);
      NextTurn(server, buffer, w0, es, i);
      i := i + 1;
    }
    assert es[..|es|] == es;
    if !server.up { StoppedForGood(w0, es, i); }
    StoppedIff(w0, es);
  }

  /** `main` of rtm_client.c for any client of any run, up to what it has read: its table is the replica of the step
      relation, in records of its own, allocations less frees of which are the size of the table. */
  method ReceiveRun(ghost w0: World, ghost es: seq<Event>, ghost fd: int, read: seq<Records.SyncMsg>)
    returns (client: RtmClients.RtmClient)
    requires Initial(w0) && fd in After(w0, es).replicas && fd in After(w0, es).server.sockets
    requires After(w0, es).replicas[fd].taken <= |After(w0, es).server.sockets[fd].sent|
    requires read == After(w0, es).server.sockets[fd].sent[..After(w0, es).replicas[fd].taken]
    ensures client.rtm.Valid() && client.rtm.Contents() == After(w0, es).replicas[fd].table
  {
    Reachable(w0, es);
    assert ValidClient(After(w0, es), fd);
    client := new RtmClients.RtmClient();
    client.Receive(read);
  }
}
