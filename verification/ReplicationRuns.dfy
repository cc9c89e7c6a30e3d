/** Whole runs of the replication system: convergence and well-founded replay. */
module ReplicationRuns {
  import opened Broadcasts
  import opened Consoles
  import opened Records
  import opened Replication
  import Seqs
  import opened Tables

  /** An event that is not possible does not happen. */
  function Step(w: World, e: Event): World { if Enabled(w, e) then Next(w, e) else w }

  /** The world after the first `|es|` events of a run. */
  function After(w: World, es: seq<Event>): World {
    if es == [] then w else Step(After(w, es[..|es| - 1]), es[|es| - 1])
  }

  lemma {:induction false} Reachable(w: World, es: seq<Event>)
    requires Initial(w)
    ensures Inv(After(w, es))
  {
    if es == [] {
      InitialInv(w);
    } else {
      Reachable(w, es[..|es| - 1]);
      if Enabled(After(w, es[..|es| - 1]), es[|es| - 1]) { StepKeepsInv(After(w, es[..|es| - 1]), es[|es| - 1]); }
    }
  }

  lemma AfterOneMore(w: World, es: seq<Event>, e: Event)
    ensures After(w, es + [e]) == Step(After(w, es), e)
  {
    assert (es + [e])[..|es|] == es;
  }

  /** A run is a run continued from any of its moments. */
  lemma {:induction false} AfterFrom(w: World, es: seq<Event>, n: nat)
    requires n <= |es|
    ensures After(w, es) == After(After(w, es[..n]), es[n..])
    decreases |es|
  {
    if n == |es| {
      assert es[..n] == es && es[n..] == [];
    } else {
      Seqs.FrontParts(es, n);
      AfterFrom(w, es[..|es| - 1], n);
    }
  }

  // ---------------------------------------------------------------- what streams replay to

  predicate StoredRecords(t: Table) { forall i | 0 <= i < |t| :: Stored(t[i]) == t[i] }

  lemma ValidTableStored(t: Table)
    requires ValidTable(t)
    ensures StoredRecords(t)
  {
    forall i | 0 <= i < |t| ensures Stored(t[i]) == t[i] { assert ValidRecord(t[i]); }
  }

  /** Replaying part of a dump builds that part of the table, in order. */
  lemma {:induction false} ReplayedDump(t: Table, k: nat)
    requires StoredRecords(t) && k <= |t|
    ensures Replayed([], DumpMsgs(t)[..k]) == t[..k]
  {
    if k > 0 {
      ReplayedNext([], DumpMsgs(t), k - 1);
      ReplayedDump(t, k - 1);
      assert t[..k] == t[..k - 1] + [t[k - 1]];
    }
  }

  lemma ReplayedWhole(t: Table)
    requires StoredRecords(t)
    ensures Replayed([], DumpMsgs(t)) == t
  {
    ReplayedDump(t, |t|);
    assert DumpMsgs(t)[..|t|] == DumpMsgs(t) && t[..|t|] == t;
  }

  // What a client has after the first messages of its stream: part of the table it joined, then the tables the
  // server had later.

  lemma ReplayedStreamHead(log: seq<SyncMsg>, joined: nat, k: nat)
    requires joined <= |log| && StoredRecords(TableAt(log, joined)) && k <= |TableAt(log, joined)|
    ensures Replayed([], Stream(log, joined)[..k]) == TableAt(log, joined)[..k]
  {
    var base := TableAt(log, joined);
    ReplayedDump(base, k);
    assert Stream(log, joined)[..k] == DumpMsgs(base)[..k];
  }

  lemma StreamSplit(log: seq<SyncMsg>, joined: nat, n: nat)
    requires joined + n <= |log|
    ensures var base, more := TableAt(log, joined), log[joined..joined + n];
            && |base| + n <= |Stream(log, joined)| && Stream(log, joined)[..|base| + n] == DumpMsgs(base) + more
            && log[..joined + n] == log[..joined] + more
  {}

  lemma DumpThenMore(t: Table, ms: seq<SyncMsg>, more: seq<SyncMsg>)
    requires StoredRecords(t) && Replayed([], ms) == t
    ensures Replayed([], DumpMsgs(t) + more) == Replayed([], ms + more)
  {
    ReplayedWhole(t);
    ReplayedConcat([], DumpMsgs(t), more);
    ReplayedConcat([], ms, more);
  }

  lemma ReplayedStreamMore(log: seq<SyncMsg>, joined: nat, n: nat)
    requires joined + n <= |log| && StoredRecords(TableAt(log, joined))
    ensures Replayed([], Stream(log, joined)[..|TableAt(log, joined)| + n]) == TableAt(log, joined + n)
  {
    DumpThenMore(TableAt(log, joined), log[..joined], log[joined..joined + n]);
    StreamSplit(log, joined, n);
  }

  lemma ReplayedStreamTail(log: seq<SyncMsg>, joined: nat, k: nat)
    requires joined <= |log| && StoredRecords(TableAt(log, joined))
    requires |TableAt(log, joined)| <= k <= |Stream(log, joined)|
    ensures Replayed([], Stream(log, joined)[..k]) == TableAt(log, joined + k - |TableAt(log, joined)|)
  {
    var n := k - |TableAt(log, joined)|;
    assert |TableAt(log, joined)| + n == k && joined + n == joined + k - |TableAt(log, joined)|;
    ReplayedStreamMore(log, joined, n);
  }

  lemma JoinedTableStored(log: seq<SyncMsg>, joined: nat)
    requires ValidTables(log) && joined <= |log|
    ensures StoredRecords(TableAt(log, joined))
  {
    ValidTableStored(TableAt(log, joined));
  }

  // ---------------------------------------------------------------- convergence

  /** Sent and not yet read. */
  function InFlight(w: World, fd: int): seq<SyncMsg>
    requires fd in w.server.sockets && fd in w.replicas && w.replicas[fd].taken <= |w.server.sockets[fd].sent|
  { w.server.sockets[fd].sent[w.replicas[fd].taken..] }

  lemma ReplayedStreamWhole(log: seq<SyncMsg>, joined: nat)
    requires joined <= |log| && StoredRecords(TableAt(log, joined))
    ensures Replayed([], Stream(log, joined)) == TableAt(log, |log|)
  {
    DumpThenMore(TableAt(log, joined), log[..joined], log[joined..]);
    assert log[..joined] + log[joined..] == log[..|log|];
  }

  lemma ReplayedRest(ms: seq<SyncMsg>, k: nat)
    requires k <= |ms|
    ensures Replayed(Replayed([], ms[..k]), ms[k..]) == Replayed([], ms)
  {
    ReplayedConcat([], ms[..k], ms[k..]);
    assert ms[..k] + ms[k..] == ms;
  }

  lemma ChannelConverges(log: seq<SyncMsg>, joined: nat, sock: Socket, r: Replica)
    requires ValidChannel(log, joined, sock, true, r) && StoredRecords(TableAt(log, joined))
    ensures Replayed(r.table, sock.sent[r.taken..]) == TableAt(log, |log|)
  {
    ReplayedRest(sock.sent, r.taken);
    ReplayedStreamWhole(log, joined);
  }

  /** Replica convergence: in every run, for every monitored client, its table with what is in flight to it is
      the server's table, in the same order. */
  lemma Convergence(w0: World, es: seq<Event>, fd: int)
    requires Initial(w0) && Monitored(After(w0, es).server, fd)
    ensures var w := After(w0, es);
            && fd in w.replicas && w.replicas[fd].taken <= |w.server.sockets[fd].sent|
            && Replayed(w.replicas[fd].table, InFlight(w, fd)) == w.server.table
  {
    Reachable(w0, es);
    var w := After(w0, es);
    assert ValidClient(w, fd);
    JoinedTableStored(w.log, w.joined[fd]);
    ChannelConverges(w.log, w.joined[fd], w.server.sockets[fd], w.replicas[fd]);
  }

  // ---------------------------------------------------------------- well-founded replay

  lemma DumpWellFounded(t: Table, k: nat)
    requires ValidTable(t) && k < |t|
    ensures WellFounded(t[..k], SyncMsg(Create, t[k]))
  {
    FindKeyUnique(t[..k], t[k].Key(), k);
    assert ValidRecord(t[k]);
  }

  lemma StreamHeadWellFounded(log: seq<SyncMsg>, joined: nat, k: nat)
    requires joined <= |log| && ValidTable(TableAt(log, joined)) && k < |TableAt(log, joined)|
    ensures WellFounded(Replayed([], Stream(log, joined)[..k]), Stream(log, joined)[k])
  {
    ValidTableStored(TableAt(log, joined));
    ReplayedStreamHead(log, joined, k);
    DumpWellFounded(TableAt(log, joined), k);
  }

  lemma StreamTailWellFounded(log: seq<SyncMsg>, joined: nat, k: nat)
    requires joined <= |log| && StoredRecords(TableAt(log, joined))
    requires |TableAt(log, joined)| <= k < |Stream(log, joined)|
    requires ValidCommits(log)
    ensures WellFounded(Replayed([], Stream(log, joined)[..k]), Stream(log, joined)[k])
  {
    ReplayedStreamTail(log, joined, k);
    var n := joined + k - |TableAt(log, joined)|;
    assert Stream(log, joined)[k] == log[n];
    assert WellFounded(TableAt(log, n), log[n]);
  }

  lemma StreamWellFounded(log: seq<SyncMsg>, joined: nat, k: nat)
    requires ValidTables(log) && ValidCommits(log) && joined <= |log| && k < |Stream(log, joined)|
    ensures WellFounded(Replayed([], Stream(log, joined)[..k]), Stream(log, joined)[k])
  {
    if k < |TableAt(log, joined)| {
      StreamHeadWellFounded(log, joined, k);
    } else {
      JoinedTableStored(log, joined);
      StreamTailWellFounded(log, joined, k);
    }
  }

  /** At a client: in every run, the next message any client reads, monitored or not, creates an absent record or
      updates or deletes a present one. */
  lemma ReceiveWellFounded(w0: World, es: seq<Event>, fd: int)
    requires Initial(w0) && Enabled(After(w0, es), Receive(fd))
    ensures var w := After(w0, es);
            WellFounded(w.replicas[fd].table, w.server.sockets[fd].sent[w.replicas[fd].taken])
  {
    Reachable(w0, es);
    var w := After(w0, es);
    assert ValidClient(w, fd);
    var sent, taken, stream := w.server.sockets[fd].sent, w.replicas[fd].taken, Stream(w.log, w.joined[fd]);
    assert stream[..taken] == sent[..taken] && stream[taken] == sent[taken];
    StreamWellFounded(w.log, w.joined[fd], taken);
  }

  /** At the server: the same for every commit, so the search in `routing_table_delete` always ends on a match. */
  lemma CommitWellFounded(w0: World, es: seq<Event>, line: string, gone: set<int>)
    requires Initial(w0) && Enabled(After(w0, es), Line(line, gone))
    ensures var s := After(w0, es).server; GoodOutcome(s.table, HandleLine(s.table, s.console, line))
  {
    Reachable(w0, es);
    var s := After(w0, es).server;
    LineKeepsInv(s.table, s.console, line);
  }

  /** What well-founded means for deletion: the matching record goes, never the last one for want of a match. */
  lemma WellFoundedDelete(t: Table, m: SyncMsg)
    requires WellFounded(t, m) && m.opCode.Delete?
    ensures var i := FindKey(t, m.body.Key());
            i < |t| && Applied(t, m) == RemovedAt(t, i) && t[i].Key() == m.body.Key()
  {}
}
