/** The routing table server as a whole: its state as a value, its two steps as functions of that value, and
    the imperative server of rtm_server.c and input.c proved against them. */
module RtmServers {
  import Addresses
  import opened Broadcasts
  import opened Consoles
  import opened CText
  import opened FdSets
  import opened Records
  import RoutingTables
  import Subnets
  import opened Tables

  // ---------------------------------------------------------------- the state and its steps

  datatype Server = Server(table: Table, console: Console, slots: seq<int>, master: int, sockets: Sockets, up: bool)

  /** `handle_connection_initiation_request`: `fd` is what `accept` returns, write number `breakAt` of the dump
      is the first to fail. A client that finds no free slot is dumped all the same. */
  function AcceptStep(s: Server, fd: int, breakAt: nat): Server {
    var slots := Added(s.slots, fd);
    s.(slots := if breakAt < |s.table| then Removed(slots, fd) else slots,
       sockets := s.sockets[fd := DumpedSocket(s.table, breakAt)])
  }

  /** What the rest of the server does with the outcome of a line: `gone` are the descriptors whose peer is found
      gone by the broadcast. After the quit command the table is the one the server had when it stopped. */
  function OutcomeStep(s: Server, o: Outcome, gone: set<int>): Server {
    var s' := s.(table := o.table, console := o.console, up := !o.quit,
                 slots := if o.quit then Removed(s.slots, s.master) else s.slots);
    match o.sent
    case None => s'
    case Some(m) => s'.(slots := BroadcastSlots(s.slots, s.master, s.sockets, gone),
                        sockets := BroadcastSockets(s.slots, s.master, s.sockets, m, gone))
  }

  /** `handle_admin_input`. */
  function LineStep(s: Server, line: string, gone: set<int>): Server {
    OutcomeStep(s, HandleLine(s.table, s.console, line), gone)
  }

  /** The descriptor table: stdin, the master socket until shutdown, then distinct open client sockets. */
  ghost predicate ValidSlots(slots: seq<int>, master: int, sockets: Sockets, up: bool) {
    && |slots| == MAX_CLIENTS && Distinct(slots)
    && slots[0] == 0 && slots[1] == (if up then master else FREE) && master > 0
    && (forall i | 2 <= i < MAX_CLIENTS && slots[i] != FREE :: slots[i] in sockets)
    && (forall fd | fd in sockets :: IsClient(fd, master))
  }

  // ---------------------------------------------------------------- the program

  class RtmServer {
    const rtm: RoutingTables.RoutingTable
    const sender: Sender
    const record: MsgBody
    var state: Mode
    var entry: EntryType
    var up: bool
    var listening: bool
    var bound: bool

    /** The server while it runs: it listens on a socket bound to its path, every record of the table has one owner
        and the pending record is none of them. */
    ghost predicate Valid()
      reads this, rtm, sender.net, sender.fds.slots
    {
      match up
      case true =>
        && listening && bound
        && rtm.Valid()
        && record !in rtm.nodes
        && ValidSlots(sender.fds.slots[..], sender.master, sender.net.sockets, true)
      case false => false
    }

    /** The server after it has exited: everything it allocated is freed, and its socket is closed and unlinked. */
    ghost predicate Stopped()
      reads this, rtm
    {
      !up && !listening && !bound && rtm.nodes == [] && rtm.live == {} && rtm.frees == rtm.allocs
    }

    function View(): Server
      reads this, rtm, rtm.nodes, record, sender.net, sender.fds.slots
    {
      Server(rtm.Contents(), Console(state, entry, record.View()), sender.fds.slots[..], sender.master,
             sender.net.sockets, up)
    }

    /** `initialize_server` and the local declarations of `main`; `entry` and the record hold anything. */
    constructor (master: int)
      requires master > 0
      ensures Valid() && View().table == [] && View().console.mode == Idle && View().sockets == map[]
      ensures View().master == master
      ensures View().slots == [0, master] + NoClients()
      ensures fresh(rtm) && fresh(rtm.live) && fresh(record) && fresh(sender.net) && fresh(sender.fds.slots)
    {
      var fds := new FdSet();
      InitialSlots(fds.slots[..], master);
      fds.Add(0);
      fds.Add(master);
      var net := new Net();
      rtm := new RoutingTables.RoutingTable();
      sender := new Sender(fds, net, master);
      record := new MsgBody();
      state, up, listening, bound := Idle, true, true, true;
      var anyEntry: EntryType := *;
      entry := anyEntry;
    }

    /** `handle_connection_initiation_request`. */
    method HandleConnection(fd: int, breakAt: nat)
      requires Valid() && IsClient(fd, sender.master) && fd !in sender.net.sockets
      modifies sender.net, sender.fds.slots
      ensures Valid() && View() == AcceptStep(old(View()), fd, breakAt)
    {
      AcceptKeepsSlots(View(), fd, breakAt);
      sender.Connect(rtm, fd, breakAt);
    }

    /** Committing the pending record: `send_synchronization_message` and back to the menu. */
    method Announce(op: OpCode, gone: set<int>)
      requires Valid()
      modifies this`state, sender.net, sender.fds.slots
      ensures Valid() && rtm.live == old(rtm.live)
      ensures View() == Announced(old(View()), SyncMsg(op, record.View()), gone)
    {
      state := Idle;
      var m := SyncMsg(op, record.View());
      BroadcastKeepsSlots(sender.fds.slots[..], sender.master, sender.net.sockets, m, gone, true);
      sender.Broadcast(m, gone);
    }

    /** The subnet prompt shared by the three operations: read into the pending record, then look the key up. */
    method SelectSubnet(buffer: array<char>) returns (ok: bool, found: bool)
      requires Valid() && NUL in buffer[..] && Subnets.AddressPartFits(Text(buffer[..]))
      modifies record, buffer
      ensures Valid() && rtm.Contents() == old(rtm.Contents())
      ensures Console(state, entry, record.View()) == WithSubnet(old(View().console), Text(old(buffer[..])))
      ensures ok == SubnetOk(old(View().console), Text(old(buffer[..])))
      ensures found == (ok && HasKey(rtm.Contents(), record.View().Key()))
    {
      var rc := Subnets.ReadDestinationSubnetFromBuffer(buffer, record);
      ok, found := rc != -1, false;
      if ok { found := rtm.ContainsDstSubnet(record.destination, record.mask); }
    }

    /** The gateway prompt of create and update. */
    method SelectGateway(buffer: array<char>)
      requires Valid() && NUL in buffer[..]
      modifies this`entry, record`gateway
      ensures Valid() && rtm.Contents() == old(rtm.Contents())
      ensures var address := Prefix(Text(buffer[..]), Addresses.IP_ADDR_LEN);
              View() == old(View()).(console := if Addresses.AcceptsAddress(Text(buffer[..]))
                                                then Console(state, Oif, old(record.View()).(gateway := address))
                                                else old(View().console))
    {
      var rc := Addresses.ReadIpAddressFromBuffer(buffer);
      if rc != -1 {
        record.gateway := Prefix(Text(buffer[..]), Addresses.IP_ADDR_LEN);
        entry := Oif;
      }
    }

    /** `create_record`. */
    method CreateRecord(buffer: array<char>, gone: set<int>)
      requires Valid() && state == Creating
      requires NUL in buffer[..] && Ordinary(View().console, Text(buffer[..]))
      modifies this, rtm, record, sender.net, sender.fds.slots, buffer
      ensures Valid() && View() == LineStep(old(View()), Text(old(buffer[..])), gone)
      ensures fresh(rtm.live - old(rtm.live))
    {
      match entry
      case Subnet =>
        SubnetStep(View(), Create, Text(buffer[..]), gone);
        var ok, found := SelectSubnet(buffer);
        if ok && !found { entry := Gateway; }
      case Gateway =>
        SelectGateway(buffer);
      case Oif =>
        OifStep(View(), Create, Text(buffer[..]), gone);
        if |Text(buffer[..])| <= OIF_LEN { CreateCommit(Text(buffer[..]), gone); }
    }

    method CreateCommit(line: string, gone: set<int>)
      requires Valid()
      modifies this, rtm, record, sender.net, sender.fds.slots
      ensures Valid()
      ensures View() == CommitStep(old(View()), Create, old(record.View()).(oif := Prefix(line, OIF_LEN)), Subnet, gone)
      ensures fresh(rtm.live - old(rtm.live))
    {
      record.oif := Prefix(line, OIF_LEN);
      var _ := rtm.Insert(record);
      entry := Subnet;
      Announce(Create, gone);
    }

    /** `update_record`. */
    method UpdateRecord(buffer: array<char>, gone: set<int>)
      requires Valid() && state == Updating
      requires NUL in buffer[..] && Ordinary(View().console, Text(buffer[..]))
      modifies this, rtm, rtm.live, record, sender.net, sender.fds.slots, buffer
      ensures Valid() && View() == LineStep(old(View()), Text(old(buffer[..])), gone)
      ensures rtm.live == old(rtm.live)
    {
      match entry
      case Subnet =>
        SubnetStep(View(), Update, Text(buffer[..]), gone);
        var ok, found := SelectSubnet(buffer);
        if found { entry := Gateway; }
      case Gateway =>
        SelectGateway(buffer);
      case Oif =>
        OifStep(View(), Update, Text(buffer[..]), gone);
        if |Text(buffer[..])| <= OIF_LEN { UpdateCommit(Text(buffer[..]), gone); }
    }

    method UpdateCommit(line: string, gone: set<int>)
      requires Valid()
      modifies this, rtm, rtm.live, record, sender.net, sender.fds.slots
      ensures Valid()
      ensures View() == CommitStep(old(View()), Update, old(record.View()).(oif := Prefix(line, OIF_LEN)), Subnet, gone)
      ensures rtm.live == old(rtm.live)
    {
      record.oif := Prefix(line, OIF_LEN);
      var _ := rtm.Update(record);
      entry := Subnet;
      assert View() == old(View()).(table := Updated(old(View()).table, record.View()),
                                    console := Console(old(state), Subnet, record.View()));
      Announce(Update, gone);
    }

    /** `delete_record`. */
    method DeleteRecord(buffer: array<char>, gone: set<int>)
      requires Valid() && state == Deleting
      requires NUL in buffer[..] && Ordinary(View().console, Text(buffer[..]))
      modifies this, rtm, record, sender.net, sender.fds.slots, buffer
      ensures Valid() && View() == LineStep(old(View()), Text(old(buffer[..])), gone)
      ensures rtm.live <= old(rtm.live)
    {
      DeleteStep(View(), Text(buffer[..]), gone);
      var ok, found := SelectSubnet(buffer);
      if found { DeleteCommit(gone); }
    }

    method DeleteCommit(gone: set<int>)
      requires Valid()
      modifies this, rtm, sender.net, sender.fds.slots
      ensures Valid() && View() == CommitStep(old(View()), Delete, old(record.View()), old(entry), gone)
      ensures rtm.live <= old(rtm.live)
    {
      var _ := rtm.Delete(record);
      Announce(Delete, gone);
    }

    /** `shutdown_server`: every record is freed, the master socket is closed, unlinked and no longer watched. */
    method Shutdown()
      requires Valid()
      modifies rtm, this`up, this`listening, this`bound, sender.fds.slots
      ensures Stopped()
      ensures View() == old(View()).(table := [], up := false, slots := Removed(old(View()).slots, sender.master))
    {
      rtm.FreeAll();
      listening := false;
      sender.fds.Remove(sender.master);
      bound := false;
      up := false;
    }

    /** The menu. */
    method Menu(line: string, gone: set<int>)
      requires Valid() && state == Idle
      modifies rtm, this, sender.fds.slots
      ensures Handled(LineStep(old(View()), line, gone))
      ensures up ==> rtm.live == old(rtm.live)
    {
      if |line| != 1 { return; }
      if |rtm.nodes| == 0 && line[0] != 'c' && line[0] != 'C' && line[0] != 'q' && line[0] != 'Q' { return; }
      if line[0] == 'c' || line[0] == 'C' {
        state := Creating;
      } else if line[0] == 'u' || line[0] == 'U' {
        state := Updating;
      } else if line[0] == 'd' || line[0] == 'D' {
        state := Deleting;
      } else if line[0] == 'q' || line[0] == 'Q' {
        Shutdown();
        return;
      }
      entry := Subnet;
    }

    /** What a line leaves: a running server in state `s`, or a stopped one whose table is gone. */
    ghost predicate Handled(s: Server)
      reads this, rtm, rtm.nodes, record, sender.net, sender.fds.slots
    {
      match s.up
      case true => Valid() && View() == s
      case false => Stopped() && View() == s.(table := [])
    }

    /** `handle_admin_input` on a buffer filled by `read`. */
    method HandleAdminInput(buffer: array<char>, gone: set<int>)
      requires Valid()
      requires HoldsLine(buffer[..]) && Ordinary(View().console, LineIn(buffer[..]))
      modifies this, rtm, rtm.live, record, sender.net, sender.fds.slots, buffer
      ensures Handled(LineStep(old(View()), LineIn(old(buffer[..])), gone))
      ensures fresh(rtm.live - old(rtm.live))
    {
      var _ := RemoveNewline(buffer);
      match state
      case Idle => Menu(Text(buffer[..]), gone);
      case Creating => CreateRecord(buffer, gone);
      case Updating => UpdateRecord(buffer, gone);
      case Deleting => DeleteRecord(buffer, gone);
    }
  }

  // What a line does, case by case.

  /** The server after sending message `m`. */
  function Announced(s: Server, m: SyncMsg, gone: set<int>): Server {
    s.(console := s.console.(mode := Idle),
       slots := BroadcastSlots(s.slots, s.master, s.sockets, gone),
       sockets := BroadcastSockets(s.slots, s.master, s.sockets, m, gone))
  }

  /** The server after committing record `r` by operation `op`. */
  function CommitStep(s: Server, op: OpCode, r: Record, entry: EntryType, gone: set<int>): Server {
    var m := SyncMsg(op, r);
    Announced(s.(table := Applied(s.table, m), console := s.console.(entry := entry, scratch := r)), m, gone)
  }

  lemma SubnetStep(s: Server, op: OpCode, line: string, gone: set<int>)
    requires s.up && Editing(s.console, op) && s.console.entry.Subnet?
    ensures var c := WithSubnet(s.console, line);
            var selected := SubnetOk(s.console, line) && Permits(s.table, op, c.scratch.Key());
            LineStep(s, line, gone) == s.(console := if selected then c.(entry := Gateway) else c)
  {}

  lemma OifStep(s: Server, op: OpCode, line: string, gone: set<int>)
    requires s.up && Editing(s.console, op) && s.console.entry.Oif?
    ensures LineStep(s, line, gone)
         == if |line| > OIF_LEN then s
            else CommitStep(s, op, s.console.scratch.(oif := Prefix(line, OIF_LEN)), Subnet, gone)
  {}

  lemma DeleteStep(s: Server, line: string, gone: set<int>)
    requires s.up && s.console.mode.Deleting?
    ensures var c := WithSubnet(s.console, line);
            LineStep(s, line, gone) == if SubnetOk(s.console, line) && HasKey(s.table, c.scratch.Key())
                                       then CommitStep(s, Delete, c.scratch, c.entry, gone) else s.(console := c)
  {}

  /** The server stops on the quit command of the menu and on nothing else. */
  lemma StopsIff(s: Server, line: string, gone: set<int>)
    requires s.up
    ensures !LineStep(s, line, gone).up <==> s.console.mode.Idle? && (line == "q" || line == "Q")
  {
    if s.console.mode.Idle? { MenuMeaning(s.table, s.console, line); }
  }

  /** Then it watches its master socket no longer, and everything else is as it was. */
  lemma StopsClean(s: Server, line: string, gone: set<int>)
    requires s.up && ValidSlots(s.slots, s.master, s.sockets, true) && !LineStep(s, line, gone).up
    ensures var s' := LineStep(s, line, gone);
            && s'.table == s.table && s'.sockets == s.sockets && s.master !in s'.slots && |s'.slots| == |s.slots|
            && forall i | 0 <= i < |s.slots| && s.slots[i] != s.master :: s'.slots[i] == s.slots[i]
  {
    StopsIff(s, line, gone);
    MenuMeaning(s.table, s.console, line);
    RemovedAll(s.slots, s.master);
  }

  lemma AcceptKeepsSlots(s: Server, fd: int, breakAt: nat)
    requires ValidSlots(s.slots, s.master, s.sockets, true) && IsClient(fd, s.master) && fd !in s.sockets
    ensures var s' := AcceptStep(s, fd, breakAt); ValidSlots(s'.slots, s'.master, s'.sockets, true)
    ensures fd !in s.slots
  {
    assert fd !in s.slots;
    AddedDistinct(s.slots, fd);
    RemovedAll(Added(s.slots, fd), fd);
  }

  lemma BroadcastKeepsSlots(slots: seq<int>, master: int, sockets: Sockets, m: SyncMsg, gone: set<int>, up: bool)
    requires ValidSlots(slots, master, sockets, up)
    ensures ValidSlots(BroadcastSlots(slots, master, sockets, gone), master,
                       BroadcastSockets(slots, master, sockets, m, gone), up)
  {}

  /** What a broadcast does, client by client and slot by slot: one copy to every monitored client that does not
      miss it, a freed slot for every one that does, nothing for anybody else; stdin, the master socket and the
      other slots are not touched. */
  lemma BroadcastExact(slots: seq<int>, master: int, sockets: Sockets, m: SyncMsg, gone: set<int>, fd: int)
    requires ValidSlots(slots, master, sockets, true) && fd in sockets
    ensures var slots' := BroadcastSlots(slots, master, sockets, gone);
            var sockets' := BroadcastSockets(slots, master, sockets, m, gone);
            && sockets'.Keys == sockets.Keys
            && (fd !in slots ==> fd !in slots' && sockets'[fd] == sockets[fd])
            && (fd in slots && Misses(sockets, fd, gone) ==>
                  fd !in slots' && sockets'[fd] == Socket(sockets[fd].sent, true))
            && (fd in slots && !Misses(sockets, fd, gone) ==>
                  fd in slots' && sockets'[fd] == Socket(sockets[fd].sent + [m], false))
            && slots'[..2] == [0, master]
            && (forall i | 0 <= i < |slots| && slots[i] != fd :: slots'[i] != fd)
            && (forall i | 0 <= i < |slots| && slots[i] in sockets && !Misses(sockets, slots[i], gone) ::
                  slots'[i] == slots[i])
  {
    var slots' := BroadcastSlots(slots, master, sockets, gone);
    if fd in slots {
      var i :| 0 <= i < |slots| && slots[i] == fd;
      assert slots'[i] == if Misses(sockets, fd, gone) then FREE else fd;
    }
  }

  lemma ShutdownKeepsSlots(slots: seq<int>, master: int, sockets: Sockets)
    requires ValidSlots(slots, master, sockets, true)
    ensures ValidSlots(Removed(slots, master), master, sockets, false)
  {
    RemovedAll(slots, master);
  }
}
