/** Admin sessions inside whole runs of the replication system, with connections and receives in between. */
module SessionRuns {
  import Consoles
  import Histories
  import opened Records
  import opened Replication
  import opened ReplicationRuns
  import opened Sessions
  import opened Tables
  import opened Wrappers

  /** The admin's lines in a run: those of the events that happen. */
  function Typed(w: World, es: seq<Event>): seq<string>
    decreases |es|
  {
    if es == [] then []
    else (if es[0].Line? && Enabled(w, es[0]) then [es[0].line] else []) + Typed(Step(w, es[0]), es[1..])
  }

  lemma AfterFirst(w: World, es: seq<Event>)
    requires es != []
    ensures After(w, es) == After(Step(w, es[0]), es[1..])
  {
    AfterFrom(w, es, 1);
    AfterOneMore(w, [], es[0]);
    assert es[..1] == [] + [es[0]];
  }

  lemma {:induction false} LogGrowsAfter(w: World, es: seq<Event>)
    ensures w.log <= After(w, es).log
  {
    if es != [] { LogGrowsAfter(w, es[..|es| - 1]); }
  }

  /** The next commit of a run, if any, carries message `m`. */
  predicate Commits(w: World, es: seq<Event>, m: Option<SyncMsg>) {
    match m
    case None => After(w, es).log == w.log
    case Some(msg) => w.log + [msg] <= After(w, es).log
  }

  function MessageOf(c: Option<Committed>): Option<SyncMsg> {
    match c
    case None => None
    case Some(Committed(m, _)) => Some(m)
  }

  /** Connections and receives neither commit anything nor change what the admin is about to commit. */
  lemma QuietEvent(w: World, e: Event)
    requires !e.Line? || !Enabled(w, e)
    ensures Step(w, e).log == w.log
    ensures Step(w, e).server.table == w.server.table && Step(w, e).server.console == w.server.console
  {}

  lemma TypedEvent(w: World, e: Event)
    requires e.Line? && Enabled(w, e)
    ensures var o, w' := Consoles.HandleLine(w.server.table, w.server.console, e.line), Step(w, e);
            && w'.server.table == o.table && w'.server.console == o.console
            && w'.log == if o.sent.Some? then w.log + [o.sent.value] else w.log
  {}

  lemma {:induction false} NextCommit(w: World, es: seq<Event>)
    ensures Commits(w, es, MessageOf(FirstCommit(w.server.table, w.server.console, Typed(w, es))))
    decreases |es|
  {
    if es != [] {
      var w', lines := Step(w, es[0]), Typed(w, es);
      AfterFirst(w, es);
      NextCommit(w', es[1..]);
      if es[0].Line? && Enabled(w, es[0]) {
        TypedEvent(w, es[0]);
        LogGrowsAfter(w', es[1..]);
        assert lines[0] == es[0].line && lines[1..] == Typed(w', es[1..]);
      } else {
        QuietEvent(w, es[0]);
        assert lines == Typed(w', es[1..]);
      }
    }
  }

  /** Commit freshness in runs: from any moment at which a create or update session starts, whatever the pending
      record holds then and whatever connects or reads in between, the next message logged and broadcast is the one
      the typed lines spell, and there is none while they spell none. */
  lemma EditSessionCommits(w0: World, es: seq<Event>, n: nat, op: OpCode)
    requires n <= |es|
    requires var c := After(w0, es[..n]).server.console; Consoles.Editing(c, op) && c.entry.Subnet?
    ensures var w := After(w0, es[..n]);
            Commits(w, es[n..], MessageOf(EditSession(w.server.table, op, Typed(w, es[n..]))))
            && After(w0, es) == After(w, es[n..])
  {
    var w := After(w0, es[..n]);
    AfterFrom(w0, es, n);
    NextCommit(w, es[n..]);
    EditCommits(w.server.table, w.server.console, op, Typed(w, es[n..]));
  }

  /** The same for a delete session: the next message deletes the first stored subnet typed. */
  lemma DeleteSessionCommits(w0: World, es: seq<Event>, n: nat)
    requires n <= |es| && After(w0, es[..n]).server.console.mode.Deleting?
    ensures var w := After(w0, es[..n]);
            var lines := Typed(w, es[n..]);
            var i := FirstLine(lines, Selector(w.server.table, Delete));
            if i == |lines| then After(w0, es).log == w.log
            else
              && |w.log| < |After(w0, es).log| && After(w0, es).log[|w.log|].opCode.Delete?
              && After(w0, es).log[|w.log|].body.Key()
                 == SubnetKey(Spelled(lines[i]).destination, Spelled(lines[i]).mask)
  {
    var w := After(w0, es[..n]);
    AfterFrom(w0, es, n);
    NextCommit(w, es[n..]);
    DeleteCommits(w.server.table, w.server.console, Typed(w, es[n..]));
  }

  // ---------------------------------------------------------------- what a session changes

  /** Table `t'` is `t` after message `m`: the record of the message in place of the one with its key, every other
      record as it was. */
  ghost predicate Effect(t: Table, m: SyncMsg, t': Table) {
    match m
    case SyncMsg(op, body) =>
      && (forall r :: r in t' <==> (r in t && r.Key() != body.Key()) || (!op.Delete? && r == body))
      && Lookup(t', body.Key()) == (if op.Delete? then None else Some(Route(body.gateway, body.oif)))
      && (op.Update? ==> Keys(t') == Keys(t))
  }

  lemma AppliedEffect(t: Table, m: SyncMsg)
    requires Consoles.ValidTable(t) && Consoles.WellFounded(t, m)
    ensures Effect(t, m, Applied(t, m))
  {
    forall r ensures r in Applied(t, m) <==> (r in t && r.Key() != m.body.Key()) || (!m.opCode.Delete? && r == m.body) {
      Consoles.AppliedContents(t, m, r);
    }
    Consoles.AppliedRefinesMap(t, m);
    assert Entry(AsMap(Applied(t, m)), m.body.Key()) == Lookup(Applied(t, m), m.body.Key());
  }

  lemma LoggedEffect(w: World, n: nat)
    requires Inv(w) && n < |w.log|
    ensures Effect(TableAt(w.log, n), w.log[n], TableAt(w.log, n + 1))
  {
    assert ValidTables(w.log) && ValidCommits(w.log);
    ReplayedNext([], w.log, n);
    AppliedEffect(TableAt(w.log, n), w.log[n]);
  }

  /** The moment right after the next commit of a run, and the table of that moment. */
  lemma CommitTakesEffect(w0: World, es: seq<Event>, n: nat, m: SyncMsg) returns (i: nat)
    requires Initial(w0) && n <= |es| && After(w0, es[..n]).log + [m] <= After(w0, es).log
    ensures n <= i <= |es| && After(w0, es[..i]).log == After(w0, es[..n]).log + [m]
    ensures Effect(After(w0, es[..n]).server.table, m, After(w0, es[..i]).server.table)
  {
    var k := |After(w0, es[..n]).log|;
    i := Histories.Attained(w0, es, n, k + 1);
    Histories.SameTable(w0, es, n);
    Histories.SameTable(w0, es, i);
    Histories.RunExtends(w0, es, i);
    Reachable(w0, es);
    LoggedEffect(After(w0, es), k);
  }

  /** A create or update session in a run, seen by its effect: once the typed lines spell a subnet, a gateway and an
      interface, there is a moment at which the server has that route for that subnet, under update at the place where
      the subnet was, and has every other record as it was when the session started. */
  lemma EditTakesEffect(w0: World, es: seq<Event>, n: nat, op: OpCode) returns (i: nat)
    requires Initial(w0) && n <= |es|
    requires var c := After(w0, es[..n]).server.console; Consoles.Editing(c, op) && c.entry.Subnet?
    requires EditSession(After(w0, es[..n]).server.table, op, Typed(After(w0, es[..n]), es[n..])).Some?
    ensures n <= i <= |es|
    ensures var w := After(w0, es[..n]);
            var m := EditSession(w.server.table, op, Typed(w, es[n..])).value.msg;
            m.opCode == op && Effect(w.server.table, m, After(w0, es[..i]).server.table)
  {
    EditSessionCommits(w0, es, n, op);
    var w := After(w0, es[..n]);
    var m := EditSession(w.server.table, op, Typed(w, es[n..])).value.msg;
    i := CommitTakesEffect(w0, es, n, m);
  }

  /** The same for a delete session: the first stored subnet typed is gone and everything else is still there. */
  lemma DeleteTakesEffect(w0: World, es: seq<Event>, n: nat) returns (i: nat)
    requires Initial(w0) && n <= |es| && After(w0, es[..n]).server.console.mode.Deleting?
    requires var w := After(w0, es[..n]);
             var lines := Typed(w, es[n..]);
             FirstLine(lines, Selector(w.server.table, Delete)) < |lines|
    ensures n <= i <= |es|
    ensures var t, t' := After(w0, es[..n]).server.table, After(w0, es[..i]).server.table;
            var lines := Typed(After(w0, es[..n]), es[n..]);
            var s := Spelled(lines[FirstLine(lines, Selector(t, Delete))]);
            forall r :: r in t' <==> r in t && r.Key() != SubnetKey(s.destination, s.mask)
  {
    DeleteSessionCommits(w0, es, n);
    var w := After(w0, es[..n]);
    AfterFrom(w0, es, n);
    LogGrowsAfter(w, es[n..]);
    i := CommitTakesEffect(w0, es, n, After(w0, es).log[|w.log|]);
  }

  /** A session ends exactly when it commits; until then its kind stays the same. */
  lemma SessionEndsIff(w: World, line: string, gone: set<int>)
    requires Enabled(w, Line(line, gone)) && !w.server.console.mode.Idle?
    ensures var w' := Step(w, Line(line, gone));
            && (w'.server.console.mode.Idle? <==> |w'.log| == |w.log| + 1)
            && (!w'.server.console.mode.Idle? <==> w'.log == w.log && w'.server.console.mode == w.server.console.mode)
            && (w'.server.console.mode.Idle? && !w.server.console.mode.Deleting? ==> w'.server.console.entry.Subnet?)
  {}

  /** No dead mode, in every run. */
  lemma AlwaysAWayOut(w0: World, es: seq<Event>)
    requires Initial(w0)
    requires var c := After(w0, es).server.console; c.mode.Updating? || c.mode.Deleting?
    ensures var s := After(w0, es).server;
            && s.table != []
            && BackToMenu(s.table, s.console, WayOut(s.table, s.console)) && |WayOut(s.table, s.console)| <= 3
  {
    Reachable(w0, es);
    NoDeadMode(After(w0, es).server.table, After(w0, es).server.console);
  }
}
