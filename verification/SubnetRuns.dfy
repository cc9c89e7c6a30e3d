/** Subnets in whole runs of the replication system: when no subnet is ever stored twice. */
module SubnetRuns {
  import opened Aliases
  import opened Consoles
  import Records
  import opened Replication
  import opened ReplicationRuns
  import Sessions
  import Subnets
  import opened Tables

  /** At the subnet prompt of a create session, the line, if it is read as a subnet at all, spells a normal key. */
  predicate TypedNormally(c: Console, line: string) {
    c.mode.Creating? && c.entry.Subnet? && Sessions.Spelled(line).ok
    ==> NormalKey(Records.SubnetKey(Sessions.Spelled(line).destination, Sessions.Spelled(line).mask))
  }

  /** Every subnet typed in the create sessions of a run is written as it should be. */
  predicate NormalInput(w0: World, es: seq<Event>) {
    forall n | 0 <= n < |es| && es[n].Line? :: TypedNormally(After(w0, es[..n]).server.console, es[n].line)
  }

  predicate AllNormal(t: Table) { forall i | 0 <= i < |t| :: NormalKey(t[i].Key()) }

  /** Every stored key is normal, and so is the one about to be created. */
  predicate NormalState(t: Table, c: Console) {
    && AllNormal(t)
    && (c.mode.Creating? && !c.entry.Subnet? ==> NormalKey(c.scratch.Key()))
  }

  lemma NormalCommit(t: Table, c: Console, line: string)
    requires NormalState(t, c) && c.mode.Creating? && c.entry.Oif?
    ensures NormalState(HandleLine(t, c, line).table, HandleLine(t, c, line).console)
  {}

  lemma NormalSelection(t: Table, c: Console, line: string)
    requires NormalState(t, c) && c.mode.Creating? && c.entry.Subnet? && TypedNormally(c, line)
    ensures NormalState(HandleLine(t, c, line).table, HandleLine(t, c, line).console)
  {
    Sessions.SubnetLine(t, c, Records.Create, line);
  }

  // Updating and deleting bring in no new key.

  lemma NormalUpdated(t: Table, r: Records.Record)
    requires AllNormal(t)
    ensures AllNormal(Updated(t, r))
  {
    var t' := Updated(t, r);
    forall i | 0 <= i < |t'| ensures NormalKey(t'[i].Key()) { assert t'[i].Key() == t[i].Key(); }
  }

  lemma RemovedItem(t: Table, n: nat, i: nat)
    requires n < |t| && i < |t| - 1
    ensures RemovedAt(t, n)[i] == t[if i < n then i else i + 1]
  {}

  lemma NormalRemoved(t: Table, n: nat)
    requires AllNormal(t) && n < |t|
    ensures AllNormal(RemovedAt(t, n))
  {
    forall i | 0 <= i < |RemovedAt(t, n)| ensures NormalKey(RemovedAt(t, n)[i].Key()) { RemovedItem(t, n, i); }
  }

  lemma NormalApplied(t: Table, m: Records.SyncMsg)
    requires AllNormal(t) && !m.opCode.Create?
    ensures AllNormal(Applied(t, m))
  {
    if m.opCode.Update? {
      NormalUpdated(t, m.body);
    } else if t != [] {
      var k := m.body.Key();
      NormalRemoved(t, if HasKey(t, k) then FindKey(t, k) else |t| - 1);
    }
  }

  /** Outside a create session a line creates nothing, and starts one at most. */
  lemma OtherLine(t: Table, c: Console, line: string)
    requires !c.mode.Creating?
    ensures var o := HandleLine(t, c, line);
            && (o.sent.None? ==> o.table == t)
            && (o.sent.Some? ==> !o.sent.value.opCode.Create? && o.table == Applied(t, o.sent.value))
            && (o.console.mode.Creating? ==> o.console.entry.Subnet?)
  {}

  lemma NormalOther(t: Table, c: Console, line: string)
    requires NormalState(t, c) && !c.mode.Creating?
    ensures NormalState(HandleLine(t, c, line).table, HandleLine(t, c, line).console)
  {
    var o := HandleLine(t, c, line);
    OtherLine(t, c, line);
    if o.sent.Some? { NormalApplied(t, o.sent.value); }
  }

  lemma NormalLine(t: Table, c: Console, line: string)
    requires NormalState(t, c) && TypedNormally(c, line)
    ensures NormalState(HandleLine(t, c, line).table, HandleLine(t, c, line).console)
  {
    if !c.mode.Creating? {
      NormalOther(t, c, line);
    } else if c.entry.Subnet? {
      NormalSelection(t, c, line);
    } else if c.entry.Oif? {
      NormalCommit(t, c, line);
    }
  }

  lemma {:induction false} NormalRun(w0: World, es: seq<Event>)
    requires Initial(w0) && NormalInput(w0, es)
    ensures var s := After(w0, es).server; NormalState(s.table, s.console)
  {
    if es != [] {
      var n := |es| - 1;
      var w := After(w0, es[..n]);
      assert forall i | 0 <= i < n :: es[..n][..i] == es[..i];
      NormalRun(w0, es[..n]);
      if es[n].Line? { NormalLine(w.server.table, w.server.console, es[n].line); }
    }
  }

  /** Where every subnet is typed as it should be, the server never holds one subnet twice. */
  lemma NoSubnetTwice(w0: World, es: seq<Event>, i: nat, j: nat)
    requires Initial(w0) && NormalInput(w0, es) && i < j < |After(w0, es).server.table|
    ensures var t := After(w0, es).server.table;
            Subnets.ValidKey(t[i].Key()) && Subnets.ValidKey(t[j].Key()) && !SameSubnet(t[i].Key(), t[j].Key())
  {
    Reachable(w0, es);
    NormalRun(w0, es);
    var t := After(w0, es).server.table;
    NormalKeyUnique(t[i].Key(), t[j].Key());
  }
}
