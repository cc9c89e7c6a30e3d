/** Whole admin sessions: what a run of lines commits, and the way back to the menu. */
module Sessions {
  import opened Addresses
  import opened CText
  import opened Consoles
  import Decimals
  import opened Records
  import opened Subnets
  import opened Tables
  import opened Wrappers

  // ---------------------------------------------------------------- what a session commits

  /** The first commit of the automaton on `lines`, and how many lines it took. */
  datatype Committed = Committed(msg: SyncMsg, used: nat)

  function FirstCommit(t: Table, c: Console, lines: seq<string>): Option<Committed>
    decreases |lines|
  {
    if lines == [] then None
    else
      var o := HandleLine(t, c, lines[0]);
      if o.sent.Some? then Some(Committed(o.sent.value, 1))
      else Later(1, FirstCommit(o.table, o.console, lines[1..]))
  }

  function Later(n: nat, r: Option<Committed>): Option<Committed> {
    match r
    case None => None
    case Some(Committed(m, used)) => Some(Committed(m, used + n))
  }

  /** Position of the first line satisfying `p`. */
  function FirstLine(lines: seq<string>, p: string -> bool): (i: nat)
    ensures i <= |lines|
    ensures forall n | 0 <= n < i :: !p(lines[n])
    ensures i < |lines| ==> p(lines[i])
  {
    if lines == [] || p(lines[0]) then 0 else 1 + FirstLine(lines[1..], p)
  }

  lemma FirstLineNext(lines: seq<string>, p: string -> bool)
    requires lines != [] && !p(lines[0])
    ensures FirstLine(lines, p) == 1 + FirstLine(lines[1..], p)
  {}

  /** The subnet a line spells, read with no pending record at all. */
  function Spelled(line: string): SubnetRead { ReadSubnet(line, "", 0) }

  /** The line selects a subnet the operation may work on. */
  predicate Selects(t: Table, op: OpCode, line: string) {
    var key := SubnetKey(Spelled(line).destination, Spelled(line).mask);
    Spelled(line).ok && if op.Create? then !HasKey(t, key) else HasKey(t, key)
  }

  function Selector(t: Table, op: OpCode): (p: string -> bool)
    ensures forall line :: p(line) == Selects(t, op, line)
  { line => Selects(t, op, line) }

  predicate OifFits(line: string) { |line| <= OIF_LEN }

  /** A create or update session without a scratch record: the first line that selects a subnet, then the
      first address, then the first interface name; the record is made of those three and of nothing else. */
  function EditSession(t: Table, op: OpCode, lines: seq<string>): Option<Committed> {
    SubnetChosen(op, lines, FirstLine(lines, Selector(t, op)))
  }

  function SubnetChosen(op: OpCode, lines: seq<string>, i: nat): Option<Committed>
    requires i <= |lines|
  { if i == |lines| then None else Later(i + 1, GatewaySession(op, Spelled(lines[i]), lines[i + 1..])) }

  function GatewaySession(op: OpCode, s: SubnetRead, lines: seq<string>): Option<Committed> {
    GatewayChosen(op, s, lines, FirstLine(lines, AcceptsAddress))
  }

  function GatewayChosen(op: OpCode, s: SubnetRead, lines: seq<string>, j: nat): Option<Committed>
    requires j <= |lines|
  { if j == |lines| then None else Later(j + 1, OifSession(op, s, lines[j], lines[j + 1..])) }

  function OifSession(op: OpCode, s: SubnetRead, gateway: string, lines: seq<string>): Option<Committed> {
    var k := FirstLine(lines, OifFits);
    if k == |lines| then None
    else
      var r := Record(s.destination, s.mask, Prefix(gateway, IP_ADDR_LEN), Prefix(lines[k], OIF_LEN));
      Some(Committed(SyncMsg(op, r), k + 1))
  }

  // Each phase seen line by line.

  lemma {:induction false} OifSessionStep(op: OpCode, s: SubnetRead, gateway: string, lines: seq<string>)
    requires lines != [] && !OifFits(lines[0])
    ensures OifSession(op, s, gateway, lines) == Later(1, OifSession(op, s, gateway, lines[1..]))
  {
    FirstLineNext(lines, OifFits);
  }

  lemma GatewayChosenLater(op: OpCode, s: SubnetRead, lines: seq<string>, j: nat)
    requires 0 < j <= |lines|
    ensures GatewayChosen(op, s, lines, j) == Later(1, GatewayChosen(op, s, lines[1..], j - 1))
  {
    if j < |lines| { assert lines[j + 1..] == lines[1..][j..]; }
  }

  lemma {:induction false} GatewaySessionStep(op: OpCode, s: SubnetRead, lines: seq<string>)
    requires lines != []
    ensures GatewaySession(op, s, lines)
         == Later(1, if AcceptsAddress(lines[0]) then OifSession(op, s, lines[0], lines[1..])
                     else GatewaySession(op, s, lines[1..]))
  {
    if !AcceptsAddress(lines[0]) {
      FirstLineNext(lines, AcceptsAddress);
      GatewayChosenLater(op, s, lines, FirstLine(lines, AcceptsAddress));
    }
  }

  lemma SubnetChosenLater(op: OpCode, lines: seq<string>, i: nat)
    requires 0 < i <= |lines|
    ensures SubnetChosen(op, lines, i) == Later(1, SubnetChosen(op, lines[1..], i - 1))
  {
    if i < |lines| { assert lines[i + 1..] == lines[1..][i..]; }
  }

  lemma {:induction false} EditSessionStep(t: Table, op: OpCode, lines: seq<string>)
    requires lines != []
    ensures EditSession(t, op, lines)
         == if Selects(t, op, lines[0]) then SubnetChosen(op, lines, 0) else Later(1, EditSession(t, op, lines[1..]))
  {
    var p := Selector(t, op);
    if !p(lines[0]) {
      FirstLineNext(lines, p);
      SubnetChosenLater(op, lines, FirstLine(lines, p));
    }
  }

  lemma OifLine(t: Table, c: Console, op: OpCode, line: string)
    requires Editing(c, op) && c.entry.Oif?
    ensures HandleLine(t, c, line) == EditLine(t, c, op, line)
    ensures OifFits(line) ==> HandleLine(t, c, line).sent == Some(SyncMsg(op, c.scratch.(oif := Prefix(line, OIF_LEN))))
    ensures !OifFits(line) ==> HandleLine(t, c, line) == Stay(t, c)
  {}

  lemma {:induction false} OifCommits(t: Table, c: Console, op: OpCode, gateway: string, lines: seq<string>)
    requires Editing(c, op) && c.entry.Oif? && c.scratch.gateway == Prefix(gateway, IP_ADDR_LEN)
    ensures FirstCommit(t, c, lines)
         == OifSession(op, SubnetRead(true, c.scratch.destination, c.scratch.mask), gateway, lines)
    decreases |lines|
  {
    if lines != [] {
      OifLine(t, c, op, lines[0]);
      if !OifFits(lines[0]) {
        OifSessionStep(op, SubnetRead(true, c.scratch.destination, c.scratch.mask), gateway, lines);
        OifCommits(t, c, op, gateway, lines[1..]);
      }
    }
  }

  lemma GatewayLine(t: Table, c: Console, op: OpCode, line: string)
    requires Editing(c, op) && c.entry.Gateway?
    ensures HandleLine(t, c, line)
         == Stay(t, if AcceptsAddress(line)
                    then c.(scratch := c.scratch.(gateway := Prefix(line, IP_ADDR_LEN)), entry := Oif) else c)
  {}

  lemma {:induction false} GatewayCommits(t: Table, c: Console, op: OpCode, lines: seq<string>)
    requires Editing(c, op) && c.entry.Gateway?
    ensures FirstCommit(t, c, lines)
         == GatewaySession(op, SubnetRead(true, c.scratch.destination, c.scratch.mask), lines)
    decreases |lines|
  {
    if lines != [] {
      GatewayLine(t, c, op, lines[0]);
      GatewaySessionStep(op, SubnetRead(true, c.scratch.destination, c.scratch.mask), lines);
      if AcceptsAddress(lines[0]) {
        OifCommits(t, HandleLine(t, c, lines[0]).console, op, lines[0], lines[1..]);
      } else {
        GatewayCommits(t, c, op, lines[1..]);
      }
    }
  }

  /** A line at the subnet prompt: it moves on exactly when it selects, and then the pending key is the one it
      spells; otherwise only the pending record can change. */
  lemma SubnetLine(t: Table, c: Console, op: OpCode, line: string)
    requires Editing(c, op) && c.entry.Subnet?
    ensures HandleLine(t, c, line) == Stay(t, HandleLine(t, c, line).console)
    ensures var c' := HandleLine(t, c, line).console;
            && c'.mode == c.mode
            && (Selects(t, op, line) ==>
                  c'.entry.Gateway? && Spelled(line) == SubnetRead(true, c'.scratch.destination, c'.scratch.mask))
            && (!Selects(t, op, line) ==> c'.entry.Subnet?)
  {
    ReadSubnetForgets(line, c.scratch.destination, c.scratch.mask, "", 0);
  }

  /** Commit freshness: from any pending record, garbage included, the automaton commits what the session
      spells and nothing else, on the same line; it commits nothing when the session is incomplete. */
  lemma {:induction false} EditCommits(t: Table, c: Console, op: OpCode, lines: seq<string>)
    requires Editing(c, op) && c.entry.Subnet?
    ensures FirstCommit(t, c, lines) == EditSession(t, op, lines)
    decreases |lines|
  {
    if lines != [] {
      var c' := HandleLine(t, c, lines[0]).console;
      SubnetLine(t, c, op, lines[0]);
      EditSessionStep(t, op, lines);
      if Selects(t, op, lines[0]) {
        GatewayCommits(t, c', op, lines[1..]);
      } else {
        EditCommits(t, c', op, lines[1..]);
      }
    }
  }

  /** A delete session commits on the first line that selects a stored subnet, and names that subnet. */
  lemma {:induction false} DeleteCommits(t: Table, c: Console, lines: seq<string>)
    requires c.mode.Deleting?
    ensures var i := FirstLine(lines, Selector(t, Delete));
            var f := FirstCommit(t, c, lines);
            if i == |lines| then f.None?
            else f.Some? && f.value.used == i + 1 && f.value.msg.opCode.Delete?
                 && f.value.msg.body.Key() == SubnetKey(Spelled(lines[i]).destination, Spelled(lines[i]).mask)
    decreases |lines|
  {
    if lines != [] {
      var line, o := lines[0], HandleLine(t, c, lines[0]);
      ReadSubnetForgets(line, c.scratch.destination, c.scratch.mask, "", 0);
      if !Selects(t, Delete, line) { DeleteCommits(t, o.console, lines[1..]); }
    }
  }

  // ---------------------------------------------------------------- no dead mode

  /** Table and console after a run of lines. */
  function AfterLines(t: Table, c: Console, lines: seq<string>): (Table, Console)
    decreases |lines|
  {
    if lines == [] then (t, c)
    else var o := HandleLine(t, c, lines[0]); AfterLines(o.table, o.console, lines[1..])
  }

  predicate AllOrdinary(t: Table, c: Console, lines: seq<string>)
    decreases |lines|
  {
    lines == [] ||
    (Ordinary(c, lines[0]) && var o := HandleLine(t, c, lines[0]); AllOrdinary(o.table, o.console, lines[1..]))
  }

  predicate BackToMenu(t: Table, c: Console, lines: seq<string>) {
    match AfterLines(t, c, lines)
    case (_, c') => c'.mode.Idle? && AllOrdinary(t, c, lines)
  }

  const SOME_GATEWAY: string := Quad("1")

  const SOME_OIF: string := "x"

  lemma SomeGatewayAccepted()
    ensures ValidGateway(SOME_GATEWAY) && OneLine(SOME_GATEWAY)
  {
    Decimals.SignedDecimalReadBack(1);
    QuadAccepted("1");
  }

  /** The lines that lead back to the menu: what the table print shows for its first record, if a subnet is
      still wanted, then any gateway and any interface. */
  function WayOut(t: Table, c: Console): (lines: seq<string>)
    requires t != []
    ensures |lines| <= 3
  {
    var subnet := PrintSubnet(t[0].Key());
    if c.mode.Idle? then []
    else if c.mode.Deleting? then [subnet]
    else if c.entry.Subnet? then [subnet, SOME_GATEWAY, SOME_OIF]
    else if c.entry.Gateway? then [SOME_GATEWAY, SOME_OIF]
    else [SOME_OIF]
  }

  lemma OneMoreLine(t: Table, c: Console, line: string, rest: seq<string>)
    requires Ordinary(c, line)
    requires var o := HandleLine(t, c, line); BackToMenu(o.table, o.console, rest)
    ensures BackToMenu(t, c, [line] + rest)
  {
    assert ([line] + rest)[1..] == rest;
  }

  lemma OifLeads(t: Table, c: Console, op: OpCode)
    requires Editing(c, op) && c.entry.Oif?
    ensures BackToMenu(t, c, [SOME_OIF])
  {
    OneMoreLine(t, c, SOME_OIF, []);
  }

  lemma GatewayLeads(t: Table, c: Console, op: OpCode, g: string)
    requires Editing(c, op) && c.entry.Gateway? && ValidGateway(g) && OneLine(g)
    ensures BackToMenu(t, c, [g, SOME_OIF])
  {
    GatewayLine(t, c, op, g);
    OifLeads(t, HandleLine(t, c, g).console, op);
    OneMoreLine(t, c, g, [SOME_OIF]);
  }

  /** A printed subnet typed at the prompt of a create or update session: creation moves on exactly when no record
      has that key, update exactly when one has. */
  lemma PrintedSubnetTyped(t: Table, c: Console, k: Key)
    requires ValidKey(k) && (c.mode.Creating? || c.mode.Updating?) && c.entry.Subnet?
    ensures Ordinary(c, PrintSubnet(k))
    ensures var accepted := if c.mode.Creating? then !HasKey(t, k) else HasKey(t, k);
            HandleLine(t, c, PrintSubnet(k))
            == Stay(t, Console(c.mode, if accepted then Gateway else Subnet,
                               c.scratch.(destination := k.destination, mask := k.mask)))
  {
    SubnetRoundTrip(k, c.scratch.destination, c.scratch.mask);
  }

  /** Typed at the prompt of a delete session, it commits exactly when a record has that key. */
  lemma PrintedSubnetDeleted(t: Table, c: Console, k: Key)
    requires ValidKey(k) && c.mode.Deleting?
    ensures var o := HandleLine(t, c, PrintSubnet(k));
            && o.console.scratch.Key() == k
            && (o.sent.Some? <==> HasKey(t, k)) && (o.console.mode.Idle? <==> HasKey(t, k))
            && (o.sent.Some? ==> o.sent.value.opCode.Delete? && o.sent.value.body.Key() == k)
  {
    SubnetRoundTrip(k, c.scratch.destination, c.scratch.mask);
  }

  lemma PrintedSubnetSelected(t: Table, c: Console)
    requires ValidTable(t) && t != []
    ensures var line := PrintSubnet(t[0].Key());
            && SubnetOk(c, line) && WithSubnet(c, line).scratch.Key() == t[0].Key()
            && HasKey(t, t[0].Key()) && Ordinary(c.(mode := Deleting), line)
  {
    SubnetRoundTrip(t[0].Key(), c.scratch.destination, c.scratch.mask);
  }

  lemma DeleteLeads(t: Table, c: Console)
    requires ConsoleInv(t, c) && c.mode.Deleting?
    ensures BackToMenu(t, c, [PrintSubnet(t[0].Key())])
  {
    PrintedSubnetSelected(t, c);
    OneMoreLine(t, c, PrintSubnet(t[0].Key()), []);
  }

  lemma PrintedSubnetLine(t: Table, c: Console)
    requires ValidTable(t) && t != [] && c.mode.Updating? && c.entry.Subnet?
    ensures var line := PrintSubnet(t[0].Key());
            Ordinary(c, line) && HandleLine(t, c, line) == Stay(t, WithSubnet(c, line).(entry := Gateway))
  {
    PrintedSubnetSelected(t, c);
  }

  /** No dead mode: while a stored record is wanted, at most three lines lead back to the menu. */
  lemma NoDeadMode(t: Table, c: Console)
    requires ConsoleInv(t, c) && (c.mode.Updating? || c.mode.Deleting?)
    ensures BackToMenu(t, c, WayOut(t, c)) && |WayOut(t, c)| <= 3
  {
    if c.mode.Deleting? {
      DeleteLeads(t, c);
    } else if c.entry.Subnet? {
      var line := PrintSubnet(t[0].Key());
      PrintedSubnetLine(t, c);
      SomeGatewayAccepted();
      GatewayLeads(t, WithSubnet(c, line).(entry := Gateway), Update, SOME_GATEWAY);
      OneMoreLine(t, c, line, [SOME_GATEWAY, SOME_OIF]);
    } else if c.entry.Gateway? {
      SomeGatewayAccepted();
      GatewayLeads(t, c, Update, SOME_GATEWAY);
    } else {
      OifLeads(t, c, Update);
    }
  }
}
