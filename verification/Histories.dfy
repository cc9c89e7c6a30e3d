/** Prefix consistency: which of the server's tables a client shows, and in which order. */
module Histories {
  import Broadcasts
  import Records
  import opened Replication
  import opened ReplicationRuns
  import Tables

  /** History only grows: no step forgets a commit, a connection, or a message read. */
  ghost predicate Extends(w: World, w': World) {
    && w.log <= w'.log
    && forall fd | fd in w.joined && fd in w.replicas ::
         && fd in w'.joined && fd in w'.replicas
         && w'.joined[fd] == w.joined[fd] && w.replicas[fd].taken <= w'.replicas[fd].taken
  }

  lemma StepExtends(w: World, e: Event)
    requires Inv(w)
    ensures Extends(w, Step(w, e)) && |Step(w, e).log| <= |w.log| + 1
  {}

  lemma LastStepExtends(w0: World, es: seq<Event>)
    requires Initial(w0) && es != []
    ensures Extends(After(w0, es[..|es| - 1]), After(w0, es))
    ensures |After(w0, es).log| <= |After(w0, es[..|es| - 1]).log| + 1
  {
    Reachable(w0, es[..|es| - 1]);
    StepExtends(After(w0, es[..|es| - 1]), es[|es| - 1]);
  }

  lemma {:induction false} RunExtends(w0: World, es: seq<Event>, n: nat)
    requires Initial(w0) && n <= |es|
    ensures Extends(After(w0, es[..n]), After(w0, es))
    decreases |es|
  {
    if n == |es| {
      assert es[..n] == es;
    } else {
      var es' := es[..|es| - 1];
      RunExtends(w0, es', n);
      assert es'[..n] == es[..n];
      LastStepExtends(w0, es);
    }
  }

  /** Every number of commits between two moments of a run is the number of commits at some moment between. */
  lemma {:induction false} Attained(w0: World, es: seq<Event>, c: nat, k: nat) returns (i: nat)
    requires Initial(w0) && c <= |es| && |After(w0, es[..c]).log| <= k <= |After(w0, es).log|
    ensures c <= i <= |es| && |After(w0, es[..i]).log| == k
    decreases |es|
  {
    assert es[..|es|] == es;
    if |After(w0, es).log| == k { return |es|; }
    var es' := es[..|es| - 1];
    LastStepExtends(w0, es);
    assert es'[..c] == es[..c];
    i := Attained(w0, es', c, k);
    assert es'[..i] == es[..i];
  }

  /** The event that connected a client. */
  lemma {:induction false} JoinedAt(w0: World, es: seq<Event>, fd: int) returns (c: nat)
    requires Initial(w0) && fd in After(w0, es).joined
    ensures c < |es| && es[c].Accept? && es[c].fd == fd
    ensures After(w0, es).joined[fd] == |After(w0, es[..c]).log|
    decreases |es|
  {
    var n := |es| - 1;
    var w := After(w0, es[..n]);
    if es[n].Accept? && es[n].fd == fd && Enabled(w, es[n]) { return n; }
    c := JoinedAt(w0, es[..n], fd);
    assert es[..n][..c] == es[..c];
  }

  /** The point of history a client shows: how many commits its table reflects. */
  function PointOf(log: seq<Records.SyncMsg>, joined: nat, taken: nat): nat
    requires joined <= |log|
  {
    if taken <= |TableAt(log, joined)| then joined else joined + taken - |TableAt(log, joined)|
  }

  function Point(w: World, fd: int): nat
    requires fd in w.joined && fd in w.replicas && w.joined[fd] <= |w.log|
  { PointOf(w.log, w.joined[fd], w.replicas[fd].taken) }

  /** The table a client shows that joined after `joined` commits: while it is reading its dump, the records read so
      far; from then on, the table the server had at its point of history. */
  function Shown(log: seq<Records.SyncMsg>, joined: nat, taken: nat): Tables.Table
    requires joined <= |log| && taken <= |Stream(log, joined)|
  {
    var base := TableAt(log, joined);
    if taken <= |base| then base[..taken] else TableAt(log, PointOf(log, joined, taken))
  }

  lemma ChannelShows(log: seq<Records.SyncMsg>, joined: nat, sock: Broadcasts.Socket, monitored: bool, r: Replica)
    requires ValidChannel(log, joined, sock, monitored, r) && StoredRecords(TableAt(log, joined))
    ensures joined <= PointOf(log, joined, r.taken) <= |log| && r.taken <= |Stream(log, joined)|
    ensures r.table == Shown(log, joined, r.taken)
  {
    assert sock.sent[..r.taken] == Stream(log, joined)[..r.taken];
    if r.taken <= |TableAt(log, joined)| {
      ReplayedStreamHead(log, joined, r.taken);
    } else {
      ReplayedStreamTail(log, joined, r.taken);
    }
  }

  lemma ClientShows(w: World, fd: int)
    requires Inv(w) && fd in w.replicas
    ensures && fd in w.joined && w.joined[fd] <= |w.log| && w.joined[fd] <= Point(w, fd) <= |w.log|
            && w.replicas[fd].taken <= |Stream(w.log, w.joined[fd])|
            && w.replicas[fd].table == Shown(w.log, w.joined[fd], w.replicas[fd].taken)
  {
    assert ValidClient(w, fd);
    JoinedTableStored(w.log, w.joined[fd]);
    ChannelShows(w.log, w.joined[fd], w.server.sockets[fd], Monitored(w.server, fd), w.replicas[fd]);
  }

  /** The table of an earlier moment, found again in the log. */
  lemma SameTable(w0: World, es: seq<Event>, i: nat)
    requires Initial(w0) && i <= |es|
    ensures var n := |After(w0, es[..i]).log|;
            n <= |After(w0, es).log| && After(w0, es[..i]).server.table == TableAt(After(w0, es).log, n)
  {
    Reachable(w0, es[..i]);
    RunExtends(w0, es, i);
    var log := After(w0, es[..i]).log;
    assert log[..|log|] == After(w0, es).log[..|log|];
  }

  /** A replica seen from the run: connected at moment `c`, it holds what it has read of the table of that moment,
      or, once it has read all of that, exactly the table the server had at moment `i`. */
  predicate ShowsMoment(w0: World, es: seq<Event>, c: nat, i: nat, r: Replica)
    requires c <= |es| && i <= |es|
  {
    var base := After(w0, es[..c]).server.table;
    r.table == if r.taken <= |base| then base[..r.taken] else After(w0, es[..i]).server.table
  }

  lemma ShownIsMoment(w0: World, es: seq<Event>, fd: int, c: nat, i: nat)
    requires Initial(w0) && fd in After(w0, es).replicas && c <= |es| && i <= |es|
    requires fd in After(w0, es).joined && After(w0, es).joined[fd] == |After(w0, es[..c]).log|
    requires After(w0, es).joined[fd] <= |After(w0, es).log| && |After(w0, es[..i]).log| == Point(After(w0, es), fd)
    ensures ShowsMoment(w0, es, c, i, After(w0, es).replicas[fd])
  {
    Reachable(w0, es);
    ClientShows(After(w0, es), fd);
    SameTable(w0, es, c);
    SameTable(w0, es, i);
  }

  /** Prefix consistency: in every run, every client that ever connected, dropped or never given a slot included,
      holds exactly as much of the table the server had when it connected as it has read, and once it has read all of
      that, exactly a table the server had at some moment since. */
  lemma PrefixConsistency(w0: World, es: seq<Event>, fd: int) returns (c: nat, i: nat)
    requires Initial(w0) && fd in After(w0, es).replicas
    ensures c < |es| && es[c].Accept? && es[c].fd == fd && c <= i <= |es|
    ensures ShowsMoment(w0, es, c, i, After(w0, es).replicas[fd])
    ensures var w := After(w0, es);
            && fd in w.joined && w.joined[fd] == |After(w0, es[..c]).log| && w.joined[fd] <= |w.log|
            && |After(w0, es[..i]).log| == Point(w, fd)
  {
    Reachable(w0, es);
    ClientShows(After(w0, es), fd);
    c := JoinedAt(w0, es, fd);
    i := Attained(w0, es, c, Point(After(w0, es), fd));
    ShownIsMoment(w0, es, fd, c, i);
  }

  lemma PointOrder(w: World, w': World, fd: int)
    requires Extends(w, w') && fd in w.joined && fd in w.replicas && w.joined[fd] <= |w.log|
    ensures fd in w'.joined && fd in w'.replicas && w'.joined[fd] == w.joined[fd] <= |w'.log|
    ensures Point(w, fd) <= Point(w', fd)
  {
    assert w.log[..w.joined[fd]] == w'.log[..w.joined[fd]];
  }

  lemma PointGrows(w0: World, es: seq<Event>, n: nat, fd: int)
    requires Initial(w0) && n <= |es| && fd in After(w0, es[..n]).replicas
    ensures var w, w' := After(w0, es[..n]), After(w0, es);
            && fd in w.joined && w.joined[fd] <= |w.log| && fd in w'.joined && fd in w'.replicas
            && w'.joined[fd] == w.joined[fd] <= |w'.log|
            && w.replicas[fd].taken <= w'.replicas[fd].taken
            && Point(w, fd) <= Point(w', fd) <= |w'.log|
  {
    Reachable(w0, es[..n]);
    Reachable(w0, es);
    RunExtends(w0, es, n);
    ClientShows(After(w0, es[..n]), fd);
    PointOrder(After(w0, es[..n]), After(w0, es), fd);
    ClientShows(After(w0, es), fd);
  }

  lemma EarlierRun(w0: World, es: seq<Event>, n: nat, c: nat, i: nat, r: Replica)
    requires n <= |es| && c <= n && i <= n && ShowsMoment(w0, es[..n], c, i, r)
    ensures ShowsMoment(w0, es, c, i, r)
  {
    assert es[..n][..c] == es[..c] && es[..n][..i] == es[..i];
  }

  /** Replicas never go back: between two moments of a run a client reads on, it shows the same connection, and a
      moment of the server that is no earlier. */
  lemma NeverBackwards(w0: World, es: seq<Event>, n: nat, fd: int) returns (c: nat, i: nat, j: nat)
    requires Initial(w0) && n <= |es| && fd in After(w0, es[..n]).replicas
    ensures c < n && es[c].Accept? && es[c].fd == fd && c <= i <= n && i <= j <= |es|
    ensures ShowsMoment(w0, es, c, i, After(w0, es[..n]).replicas[fd])
    ensures fd in After(w0, es).replicas && ShowsMoment(w0, es, c, j, After(w0, es).replicas[fd])
    ensures After(w0, es[..n]).replicas[fd].taken <= After(w0, es).replicas[fd].taken
  {
    c, i := PrefixConsistency(w0, es[..n], fd);
    EarlierRun(w0, es, n, c, i, After(w0, es[..n]).replicas[fd]);
    PointGrows(w0, es, n, fd);
    assert es[..n][..c] == es[..c] && es[..n][..i] == es[..i];
    j := Attained(w0, es, i, Point(After(w0, es), fd));
    ShownIsMoment(w0, es, fd, c, j);
  }
}
