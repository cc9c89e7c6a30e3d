/** The routing table client of rtm_client.c. */
module RtmClients {
  import opened Records
  import RoutingTables
  import Tables

  class RtmClient {
    const rtm: RoutingTables.RoutingTable

    constructor ()
      ensures fresh(rtm) && rtm.Valid() && rtm.Contents() == [] && rtm.live == {}
    {
      rtm := new RoutingTables.RoutingTable();
    }

    /** `synchronize_with_server`; `body` is the message buffer of `main`. */
    method Synchronize(opCode: OpCode, body: MsgBody)
      requires rtm.Valid() && body !in rtm.live
      modifies rtm, rtm.live
      ensures rtm.Valid() && body !in rtm.live && fresh(rtm.live - old(rtm.live))
      ensures rtm.Contents() == Tables.Applied(old(rtm.Contents()), SyncMsg(opCode, old(body.View())))
    {
      match opCode
      case Create => var _ := rtm.Insert(body);
      case Update => var _ := rtm.Update(body);
      case Delete => var _ := rtm.Delete(body);
    }

    /** The receive loop of `main` until end of file. */
    method Receive(stream: seq<SyncMsg>)
      requires rtm.Valid()
      modifies rtm, rtm.live
      ensures rtm.Valid() && fresh(rtm.live - old(rtm.live))
      ensures rtm.Contents() == Tables.Replayed(old(rtm.Contents()), stream)
    {
      var buffer := new MsgBody();
      var i := 0;
      while i < |stream|
        invariant i <= |stream| && rtm.Valid() && buffer !in rtm.live
        invariant fresh(buffer) && fresh(rtm.live - old(rtm.live))
        invariant rtm.Contents() == Tables.Replayed(old(rtm.Contents()), stream[..i])
      {
        Tables.ReplayedNext(old(rtm.Contents()), stream, i);
        ReadMessage(stream[i].body, buffer);
        Synchronize(stream[i].opCode, buffer);
        i := i + 1;
      }
      assert stream[..i] == stream;
    }

    /** `shutdown_client`. */
    method Shutdown()
      requires rtm.Valid()
      modifies rtm
      ensures rtm.nodes == [] && rtm.live == {} && rtm.frees == rtm.allocs
    {
      rtm.FreeAll();
    }

    /** `read` into the message buffer. */
    method ReadMessage(body: Record, buffer: MsgBody)
      requires rtm.Valid() && buffer !in rtm.live
      modifies buffer
      ensures buffer.View() == body && rtm.Contents() == old(rtm.Contents())
    {
      buffer.destination, buffer.mask := body.destination, body.mask;
      buffer.gateway, buffer.oif := body.gateway, body.oif;
    }
  }
}
