/** The multiplexed server of multiplexing/server.c, in place over its two arrays, proved against SumServers. */
module MuxServers {
  import opened FdSets
  import opened SumServers
  import opened Wrappers

  /** The client side of the sockets. */
  class Peers {
    var owner: map<int, nat>
    var sessions: seq<Session>

    constructor ()
      ensures owner == map[] && sessions == []
    {
      owner, sessions := map[], [];
    }

    /** `accept`: a connection from a client that will send `stream`. */
    method Open(fd: int, stream: seq<int>)
      modifies this
      ensures owner == old(owner)[fd := |old(sessions)|] && sessions == old(sessions) + [Session(stream, 0, None)]
    {
      owner, sessions := owner[fd := |sessions|], sessions + [Session(stream, 0, None)];
    }

    /** `read` of one integer, or of nothing into a zeroed buffer. */
    method Read(fd: int) returns (data: int)
      requires fd in owner && owner[fd] < |sessions|
      modifies this`sessions
      ensures var s := old(sessions)[owner[fd]];
              data == ReadAt(s.stream, s.pos) && sessions == old(sessions)[owner[fd] := s.(pos := s.pos + 1)]
    {
      var s := sessions[owner[fd]];
      data := ReadAt(s.stream, s.pos);
      sessions := sessions[owner[fd] := s.(pos := s.pos + 1)];
    }

    /** `write` of the reply. */
    method Write(fd: int, result: int)
      requires fd in owner && owner[fd] < |sessions|
      modifies this`sessions
      ensures sessions == old(sessions)[owner[fd] := old(sessions)[owner[fd]].(reply := Some(result))]
    {
      sessions := sessions[owner[fd] := sessions[owner[fd]].(reply := Some(result))];
    }

    /** `close`. */
    method Close(fd: int)
      modifies this`owner
      ensures owner == old(owner) - {fd}
    {
      owner := owner - {fd};
    }
  }

  class MuxServer {
    const fds: FdSet
    const clientResult: array<int>
    const peers: Peers
    const master: int

    function View(): Mux
      reads fds.slots, clientResult, peers
    { Mux(fds.slots[..], clientResult[..], master, peers.owner, peers.sessions) }

    /** `initialize_server`. */
    constructor (master: int)
      requires master > 0
      ensures Initial(View()) && View().master == master
      ensures fds.slots != clientResult && fresh(clientResult) && fresh(fds.slots) && fresh(peers)
    {
      this.master := master;
      fds := new FdSet();
      clientResult := new int[MAX_CLIENTS](_ => 0);
      peers := new Peers();
      new;
      InitialSlots(fds.slots[..], master);
      fds.Add(0);
      fds.Add(master);
    }

    /** `handle_connection_initiation_request`. */
    method HandleConnection(fd: int, stream: seq<int>)
      requires fds.slots != clientResult
      modifies fds.slots, peers
      ensures View() == AcceptStep(old(View()), fd, stream)
    {
      peers.Open(fd, stream);
      fds.Add(fd);
    }

    /** The body of the loop of `handle_service_request` for a ready slot. */
    method ServeClient(i: nat)
      requires Busy(View(), i) && fds.slots != clientResult
      modifies fds.slots, clientResult, peers
      ensures View() == ServeSlot(old(View()), i)
    {
      var commSocketFd := fds.slots[i];
      var data := peers.Read(commSocketFd);
      if data == 0 {
        peers.Write(commSocketFd, clientResult[i]);
        peers.Close(commSocketFd);
        clientResult[i] := 0;
        fds.Remove(commSocketFd);
      } else {
        clientResult[i] := clientResult[i] + data;
      }
    }

    /** `handle_service_request`, where `readFds` is what `select` left in the set. */
    method HandleServiceRequest(readFds: set<int>)
      requires MuxInv(View()) && ReadyClients(View(), readFds) && fds.slots != clientResult
      modifies fds.slots, clientResult, peers
      ensures MuxInv(View()) && View() == Round(old(View()), readFds)
    {
      var i := 0;
      while i < MAX_CLIENTS
        invariant i <= MAX_CLIENTS
        invariant View() == ServeReady(old(View()), readFds, i)
        invariant MuxInv(View()) && ReadyClients(View(), readFds)
      {
        ServeReadyKeepsInv(old(View()), readFds, i + 1);
        assert View().slots[i] == fds.slots[i];
        if fds.slots[i] in readFds {
          BusyIffReady(View(), readFds, i);
          ServeClient(i);
        }
        i := i + 1;
      }
    }
  }

  /** `main` over the events of a run: at every turn the arrays hold what the step relation says. */
  method ServeRun(master: int, es: seq<Event>) returns (server: MuxServer, ghost m0: Mux)
    requires master > 0
    ensures Initial(m0) && m0.master == master
    ensures server.View() == After(m0, es) && MuxInv(server.View())
  {
    server := new MuxServer(master);
    m0 := server.View();
    var i := 0;
    while i < |es|
      invariant i <= |es| && server.View() == After(m0, es[..i])
    {
      Reachable(m0, es[..i]);
      assert es[..i + 1][..i] == es[..i];
      match es[i] {
        case Accept(fd, stream) =>
          if fd > 0 && fd != server.master && fd !in server.peers.owner { server.HandleConnection(fd, stream); }
        case Serve(ready) =>
          if ReadyClients(server.View(), ready) { server.HandleServiceRequest(ready); }
      }
      i := i + 1;
    }
    assert es[..i] == es;
    Reachable(m0, es);
  }
}
