/** The admin console automaton: what one line of input does to the table and to the pending record
    (rtm_server.c and input.c), without input/output and without the heap. */
module Consoles {
  import opened Addresses
  import opened CText
  import opened Records
  import opened Subnets
  import opened Tables
  import opened Wrappers

  const BUF_SIZE := 32

  datatype Mode = Idle | Creating | Updating | Deleting

  datatype EntryType = Subnet | Gateway | Oif

  /** `state`, `entry` and the scratch record of `main`; the last two start out uninitialised. */
  datatype Console = Console(mode: Mode, entry: EntryType, scratch: Record)

  /** Effect of one line: new table and console, the message broadcast if any, and whether the server exits. */
  datatype Outcome = Outcome(table: Table, console: Console, sent: Option<SyncMsg>, quit: bool)

  function Stay(t: Table, c: Console): Outcome { Outcome(t, c, None, false) }

  function IdleLine(t: Table, c: Console, line: string): Outcome {
    if |line| != 1 then Stay(t, c)
    else if t == [] && line[0] !in "cCqQ" then Stay(t, c)
    else if line[0] in "cC" then Stay(t, c.(mode := Creating, entry := Subnet))
    else if line[0] in "uU" then Stay(t, c.(mode := Updating, entry := Subnet))
    else if line[0] in "dD" then Stay(t, c.(mode := Deleting, entry := Subnet))
    else if line[0] in "qQ" then Outcome(t, c, None, true)
    else Stay(t, c.(entry := Subnet))
  }

  /** The console after the subnet reader has written into the scratch record. */
  function WithSubnet(c: Console, line: string): Console {
    var r := ReadSubnet(line, c.scratch.destination, c.scratch.mask);
    c.(scratch := c.scratch.(destination := r.destination, mask := r.mask))
  }

  function SubnetOk(c: Console, line: string): bool { ReadSubnet(line, c.scratch.destination, c.scratch.mask).ok }

  /** Whether operation `op` may go ahead on key `k`: creation needs it absent, the others present. */
  predicate Permits(t: Table, op: OpCode, k: Key) { HasKey(t, k) <==> !op.Create? }

  /** The commit: the table operation, the message to every client, and back to the menu. */
  function Commit(t: Table, c: Console, op: OpCode): Outcome {
    var m := SyncMsg(op, c.scratch);
    Outcome(Applied(t, m), c.(mode := Idle), Some(m), false)
  }

  /** A create session runs create operations, an update session updates. */
  predicate Editing(c: Console, op: OpCode) { (op.Create? && c.mode.Creating?) || (op.Update? && c.mode.Updating?) }

  /** `create_record` and `update_record`. */
  function EditLine(t: Table, c: Console, op: OpCode, line: string): Outcome {
    match c.entry
    case Subnet =>
      var c' := WithSubnet(c, line);
      if SubnetOk(c, line) && Permits(t, op, c'.scratch.Key()) then Stay(t, c'.(entry := Gateway)) else Stay(t, c')
    case Gateway =>
      if !AcceptsAddress(line) then Stay(t, c)
      else Stay(t, c.(scratch := c.scratch.(gateway := Prefix(line, IP_ADDR_LEN)), entry := Oif))
    case Oif =>
      if |line| > OIF_LEN then Stay(t, c)
      else Commit(t, c.(scratch := c.scratch.(oif := Prefix(line, OIF_LEN)), entry := Subnet), op)
  }

  /** `delete_record`. */
  function DeleteLine(t: Table, c: Console, line: string): Outcome {
    var c' := WithSubnet(c, line);
    if SubnetOk(c, line) && Permits(t, Delete, c'.scratch.Key()) then Commit(t, c', Delete) else Stay(t, c')
  }

  /** `handle_admin_input` on a line whose newline has been removed. */
  function HandleLine(t: Table, c: Console, line: string): Outcome {
    match c.mode
    case Idle => IdleLine(t, c, line)
    case Creating => EditLine(t, c, Create, line)
    case Updating => EditLine(t, c, Update, line)
    case Deleting => DeleteLine(t, c, line)
  }

  /** The input the reader functions are defined on: the line fits the 32-byte buffer with its NUL, and the
      part that goes into an address field fits that field with its NUL. */
  predicate Ordinary(c: Console, line: string) {
    && OneLine(line) && |line| < BUF_SIZE
    && ((c.mode.Deleting? || (!c.mode.Idle? && c.entry.Subnet?)) ==> AddressPartFits(line))
    && ((c.mode.Creating? || c.mode.Updating?) && c.entry.Gateway? ==> |line| < IP_ADDR_LEN)
  }

  /** What the menu accepts: one-letter commands in either case, of which an empty table admits only creation
      and quitting; the menu never touches the table, the pending record or the clients. */
  lemma MenuMeaning(t: Table, c: Console, line: string)
    requires c.mode.Idle?
    ensures var o := HandleLine(t, c, line);
            && (o.console.mode.Creating? <==> line == "c" || line == "C")
            && (o.console.mode.Updating? <==> t != [] && (line == "u" || line == "U"))
            && (o.console.mode.Deleting? <==> t != [] && (line == "d" || line == "D"))
            && (o.quit <==> line == "q" || line == "Q")
            && (!o.console.mode.Idle? ==> o.console.entry.Subnet?)
            && o.table == t && o.sent.None? && o.console.scratch == c.scratch
  {
    if |line| == 1 { assert line == [line[0]]; }
  }

  // ---------------------------------------------------------------- the invariant

  predicate ValidGateway(g: string) { |g| < IP_ADDR_LEN && AcceptsAddress(g) }

  predicate ValidRecord(r: Record) { ValidKey(r.Key()) && ValidGateway(r.gateway) && |r.oif| < OIF_LEN }

  ghost predicate ValidTable(t: Table) {
    UniqueKeys(t) && forall i | 0 <= i < |t| :: ValidRecord(t[i])
  }

  /** What the pending fields are worth in each mode. */
  predicate ValidConsole(t: Table, c: Console) {
    var key := c.scratch.Key();
    && (c.mode.Creating? && !c.entry.Subnet? ==> ValidKey(key) && !HasKey(t, key))
    && (c.mode.Updating? && !c.entry.Subnet? ==> ValidKey(key) && HasKey(t, key))
    && ((c.mode.Creating? || c.mode.Updating?) && c.entry.Oif? ==> ValidGateway(c.scratch.gateway))
    && (c.mode.Updating? || c.mode.Deleting? ==> t != [])
  }

  ghost predicate ConsoleInv(t: Table, c: Console) { ValidTable(t) && ValidConsole(t, c) }

  /** An operation that meets what it expects: an absent key to create, a present one otherwise. */
  predicate WellFounded(t: Table, m: SyncMsg) {
    match m
    case SyncMsg(op, body) =>
      && (if op.Create? then !HasKey(t, body.Key()) else HasKey(t, body.Key()))
      && ValidKey(body.Key())
      && (!op.Delete? ==> ValidRecord(body))
  }

  /** What every line guarantees of its outcome: the invariant holds again, and the table changed by one
      well-founded operation, which is the one broadcast, or not at all. */
  ghost predicate GoodOutcome(t: Table, o: Outcome) {
    match o
    case Outcome(t', c', sent, quit) =>
      && ConsoleInv(t', c')
      && (sent.Some? ==> !quit && WellFounded(t, sent.value) && t' == Applied(t, sent.value))
      && (sent.None? ==> t' == t)
  }

  lemma AcceptedKey(c: Console, line: string)
    requires SubnetOk(c, line) && AddressPartFits(line) && OneLine(line)
    ensures ValidKey(WithSubnet(c, line).scratch.Key())
  {
    SplitHead(line, '/');
    SplitJoin(line, '/');
  }

  lemma AppliedKeepsTable(t: Table, m: SyncMsg)
    requires ValidTable(t) && WellFounded(t, m)
    ensures ValidTable(Applied(t, m))
  {
    match m.opCode
    case Create => InsertRefinesMap(t, m.body);
    case Update => UpdateRefinesMap(t, m.body);
    case Delete => DeleteRefinesMap(t, m.body.Key());
  }

  /** What a message does to the records: the one with its key is replaced or removed, every other stays. */
  lemma AppliedContents(t: Table, m: SyncMsg, r: Record)
    requires ValidTable(t) && WellFounded(t, m)
    ensures r in Applied(t, m) <==> (r in t && r.Key() != m.body.Key()) || (!m.opCode.Delete? && r == m.body)
  {
    match m.opCode
    case Create => InsertedContents(t, m.body, r);
    case Update => UpdatedContents(t, m.body, r);
    case Delete => DeletedContents(t, m.body.Key(), r);
  }

  /** What a message does to the map the table stands for, and to the order of the keys. */
  lemma AppliedRefinesMap(t: Table, m: SyncMsg)
    requires ValidTable(t) && WellFounded(t, m)
    ensures var k, route := m.body.Key(), RouteOf(m.body);
            match m.opCode
            case Create => AsMap(Applied(t, m)) == AsMap(t)[k := route] && Keys(Applied(t, m)) == Keys(t) + [k]
            case Update => AsMap(Applied(t, m)) == AsMap(t)[k := route] && Keys(Applied(t, m)) == Keys(t)
            case Delete =>
              && AsMap(Applied(t, m)) == AsMap(t) - {k}
              && exists i :: 0 <= i < |t| && t[i].Key() == k && Keys(Applied(t, m)) == Keys(t)[..i] + Keys(t)[i + 1..]
  {
    match m.opCode
    case Create => InsertRefinesMap(t, m.body);
    case Update => UpdateRefinesMap(t, m.body);
    case Delete =>
      DeleteRefinesMap(t, m.body.Key());
      assert t[FindKey(t, m.body.Key())].Key() == m.body.Key();
  }

  lemma EditKeepsInv(t: Table, c: Console, op: OpCode, line: string)
    requires ConsoleInv(t, c) && Ordinary(c, line)
    requires Editing(c, op)
    ensures GoodOutcome(t, EditLine(t, c, op, line))
  {
    match c.entry
    case Subnet => if SubnetOk(c, line) { AcceptedKey(c, line); }
    case Gateway =>
    case Oif =>
      var sent := EditLine(t, c, op, line).sent;
      if sent.Some? { AppliedKeepsTable(t, sent.value); }
  }

  lemma DeleteKeepsInv(t: Table, c: Console, line: string)
    requires ConsoleInv(t, c) && Ordinary(c, line) && c.mode.Deleting?
    ensures GoodOutcome(t, DeleteLine(t, c, line))
  {
    var o := DeleteLine(t, c, line);
    if SubnetOk(c, line) { AcceptedKey(c, line); }
    if o.sent.Some? { AppliedKeepsTable(t, o.sent.value); }
  }

  /** Every ordinary line, in every mode. */
  lemma LineKeepsInv(t: Table, c: Console, line: string)
    requires ConsoleInv(t, c) && Ordinary(c, line)
    ensures GoodOutcome(t, HandleLine(t, c, line))
  {
    match c.mode
    case Idle =>
    case Creating => EditKeepsInv(t, c, Create, line);
    case Updating => EditKeepsInv(t, c, Update, line);
    case Deleting => DeleteKeepsInv(t, c, line);
  }
}
