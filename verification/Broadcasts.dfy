/** What the server's writes do to its sockets and to the monitored descriptor table (rtm.c). */
module Broadcasts {
  import opened FdSets
  import opened Records
  import RoutingTables
  import Seqs
  import Tables

  /** One client socket: every message written to it so far, and whether a write has failed. A socket that has
      failed stays failed; until then nothing is lost or reordered. */
  datatype Socket = Socket(sent: seq<SyncMsg>, broken: bool)

  type Sockets = map<int, Socket>

  function Written(s: Socket, m: SyncMsg, breaks: bool): Socket {
    if s.broken || breaks then s.(broken := true) else s.(sent := s.sent + [m])
  }

  predicate IsClient(fd: int, master: int) { fd > 0 && fd != master }

  /** The client in this slot misses the message: its socket is broken already or breaks now. */
  predicate Misses(sockets: Sockets, fd: int, gone: set<int>) { fd in sockets && (sockets[fd].broken || fd in gone) }

  /** Every monitored client gets one copy or is found broken; nobody else's socket changes. */
  function BroadcastSockets(slots: seq<int>, master: int, sockets: Sockets, m: SyncMsg, gone: set<int>): Sockets {
    map fd | fd in sockets ::
      if IsClient(fd, master) && fd in slots then Written(sockets[fd], m, fd in gone) else sockets[fd]
  }

  /** The slots of the clients that missed the message are freed; every other slot keeps its descriptor. */
  function BroadcastSlots(slots: seq<int>, master: int, sockets: Sockets, gone: set<int>): (t: seq<int>)
    ensures |t| == |slots|
  {
    seq(|slots|, i requires 0 <= i < |slots| =>
      if IsClient(slots[i], master) && Misses(sockets, slots[i], gone) then FREE else slots[i])
  }

  /** The table as CREATE messages, in order. */
  function DumpMsgs(t: Tables.Table): (ms: seq<SyncMsg>)
    ensures |ms| == |t|
  { seq(|t|, i requires 0 <= i < |t| => SyncMsg(Create, t[i])) }

  function Min(a: nat, b: nat): nat { if a < b then a else b }

  /** The dump to a new socket whose write number `breakAt` (from 0) fails: what was written before it. */
  function DumpedSocket(t: Tables.Table, breakAt: nat): Socket {
    Socket(DumpMsgs(t)[..Min(breakAt, |t|)], breakAt < |t|)
  }

  /** The write side of the server. */
  class Net {
    var sockets: Sockets

    constructor ()
      ensures sockets == map[]
    {
      sockets := map[];
    }

    /** The socket of an accepted connection. */
    method Open(fd: int)
      modifies this
      ensures sockets == old(sockets)[fd := Socket([], false)]
    {
      sockets := sockets[fd := Socket([], false)];
    }

    /** `write`: `breaks` says that this write finds the peer gone. */
    method Write(fd: int, m: SyncMsg, breaks: bool) returns (rc: int)
      requires fd in sockets
      modifies this
      ensures sockets == old(sockets)[fd := Written(old(sockets[fd]), m, breaks)]
      ensures rc == if old(sockets[fd]).broken || breaks then -1 else 0
    {
      rc := if sockets[fd].broken || breaks then -1 else 0;
      sockets := sockets[fd := Written(sockets[fd], m, breaks)];
    }
  }

  class Sender {
    const fds: FdSet
    const net: Net
    const master: int

    constructor (fds: FdSet, net: Net, master: int)
      ensures this.fds == fds && this.net == net && this.master == master
    {
      this.fds, this.net, this.master := fds, net, master;
    }

    /** `_send_synchronization_message`. */
    method Send(m: SyncMsg, fd: int, breaks: bool)
      requires fd in net.sockets
      modifies net, fds.slots
      ensures net.sockets == old(net.sockets)[fd := Written(old(net.sockets[fd]), m, breaks)]
      ensures fds.slots[..] == if old(net.sockets[fd]).broken || breaks then Removed(old(fds.slots[..]), fd)
                               else old(fds.slots[..])
    {
      var rc := net.Write(fd, m, breaks);
      if rc == -1 { fds.Remove(fd); }
    }

    /** `send_synchronization_message`, which frees slots of the array it is walking. */
    method Broadcast(m: SyncMsg, gone: set<int>)
      requires Distinct(fds.slots[..])
      requires forall fd | fd in fds.slots[..] && IsClient(fd, master) :: fd in net.sockets
      modifies net, fds.slots
      ensures net.sockets == BroadcastSockets(old(fds.slots[..]), master, old(net.sockets), m, gone)
      ensures fds.slots[..] == BroadcastSlots(old(fds.slots[..]), master, old(net.sockets), gone)
    {
      ghost var slots, sockets := fds.slots[..], net.sockets;
      ghost var slots' := BroadcastSlots(slots, master, sockets, gone);
      var i := 0;
      while i < fds.slots.Length
        invariant i <= fds.slots.Length
        invariant fds.slots[..] == slots'[..i] + slots[i..]
        invariant net.sockets == BroadcastSockets(slots[..i], master, sockets, m, gone)
      {
        var fd := fds.slots[i];
        assert fd == slots[i];
        BroadcastStepSlots(slots, master, sockets, gone, i);
        BroadcastStepSockets(slots, master, sockets, m, gone, i);
        if fd > 0 && fd != master { Send(m, fd, fd in gone); }
        i := i + 1;
      }
      assert slots[..i] == slots && slots'[..i] == slots';
    }

    /** `dump_rtm_contents` to a socket just opened. */
    method Dump(rt: RoutingTables.RoutingTable, fd: int, breakAt: nat)
      requires fd in net.sockets && net.sockets[fd] == Socket([], false)
      requires Distinct(fds.slots[..]) && fd != FREE
      modifies net, fds.slots
      ensures net.sockets == old(net.sockets)[fd := DumpedSocket(rt.Contents(), breakAt)]
      ensures fds.slots[..] == if breakAt < |rt.nodes| then Removed(old(fds.slots[..]), fd) else old(fds.slots[..])
    {
      ghost var slots, t := fds.slots[..], rt.Contents();
      RemovedAll(slots, fd);
      Seqs.IndexOfUnique(Removed(slots, fd), fd, |slots|);
      var i := 0;
      while i < |rt.nodes|
        invariant i <= |t|
        invariant net.sockets == old(net.sockets)[fd := Socket(DumpMsgs(t)[..Min(breakAt, i)], breakAt < i)]
        invariant fds.slots[..] == if breakAt < i then Removed(slots, fd) else slots
      {
        Send(SyncMsg(Create, rt.nodes[i].View()), fd, i >= breakAt);
        assert DumpMsgs(t)[..i + 1] == DumpMsgs(t)[..i] + [SyncMsg(Create, t[i])];
        i := i + 1;
      }
    }

    /** A connection just accepted on `fd`: it gets a slot if there is one, and the dump. */
    method Connect(rt: RoutingTables.RoutingTable, fd: int, breakAt: nat)
      requires Distinct(fds.slots[..]) && fd !in fds.slots[..] && fd != FREE
      modifies net, fds.slots
      ensures net.sockets == old(net.sockets)[fd := DumpedSocket(rt.Contents(), breakAt)]
      ensures fds.slots[..] == if breakAt < |rt.nodes| then Removed(Added(old(fds.slots[..]), fd), fd)
                               else Added(old(fds.slots[..]), fd)
    {
      AddedDistinct(fds.slots[..], fd);
      net.Open(fd);
      fds.Add(fd);
      Dump(rt, fd, breakAt);
    }
  }

  // Slot `i` in the middle of a broadcast: its descriptor is where it was, in no slot before it, and freeing it
  // frees nothing else.

  lemma BroadcastStepSlots(slots: seq<int>, master: int, sockets: Sockets, gone: set<int>, i: nat)
    requires Distinct(slots) && i < |slots|
    ensures var slots' := BroadcastSlots(slots, master, sockets, gone);
            var now := slots'[..i] + slots[i..];
            slots'[..i + 1] + slots[i + 1..]
            == if IsClient(slots[i], master) && Misses(sockets, slots[i], gone) then Removed(now, slots[i]) else now
  {
    var slots', fd := BroadcastSlots(slots, master, sockets, gone), slots[i];
    var now := slots'[..i] + slots[i..];
    if IsClient(fd, master) {
      assert fd !in now[..i] by { assert now[..i] == slots'[..i]; }
      Seqs.IndexOfUnique(now, fd, i);
    }
  }

  lemma BroadcastStepSockets(slots: seq<int>, master: int, sockets: Sockets, m: SyncMsg, gone: set<int>, i: nat)
    requires Distinct(slots) && i < |slots|
    requires IsClient(slots[i], master) ==> slots[i] in sockets
    ensures var fd, before := slots[i], BroadcastSockets(slots[..i], master, sockets, m, gone);
            && (IsClient(fd, master) ==> before[fd] == sockets[fd])
            && BroadcastSockets(slots[..i + 1], master, sockets, m, gone)
               == if IsClient(fd, master) then before[fd := Written(sockets[fd], m, fd in gone)] else before
  {
    var fd := slots[i];
    assert slots[..i + 1] == slots[..i] + [fd];
    if IsClient(fd, master) { assert fd !in slots[..i]; }
  }
}
