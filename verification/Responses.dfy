/** Bounded response of the multiplexed sum server: how many rounds a client waits for its reply. */
module Responses {
  import opened FdSets
  import Seqs
  import opened SumServers
  import opened Wrappers

  /** Session `k` is in a slot, on descriptor `fd`. */
  predicate InSlot(m: Mux, k: nat, fd: int) { k < |m.sessions| && fd in m.owner && m.owner[fd] == k && fd in m.slots }

  /** A round that finds descriptor `fd` ready, and only clients. */
  predicate Serves(m: Mux, e: Event, fd: int) {
    e.Serve? && fd in e.ready && FREE !in e.ready && 0 !in e.ready && m.master !in e.ready
  }

  /** How many such rounds there are in a run. */
  function Turns(m: Mux, es: seq<Event>, fd: int): nat {
    if es == [] then 0
    else Turns(m, es[..|es| - 1], fd) + if Serves(After(m, es[..|es| - 1]), es[|es| - 1], fd) then 1 else 0
  }

  lemma SlotOf(m: Mux, k: nat, fd: int) returns (i: nat)
    requires MuxInv(m) && InSlot(m, k, fd)
    ensures i < MAX_CLIENTS && m.slots[i] == fd && Busy(m, i) && fd != FREE
    ensures Accumulates(m.sessions[k], m.results[i])
  {
    i :| 0 <= i < |m.slots| && m.slots[i] == fd;
    assert ValidSlot(m, i);
  }

  // ---------------------------------------------------------------- one event

  /** Serving another descriptor. */
  lemma ServeAnother(m: Mux, i: nat, k: nat, fd: int)
    requires MuxInv(m) && Busy(m, i) && InSlot(m, k, fd) && m.slots[i] != fd
    ensures InSlot(ServeSlot(m, i), k, fd) && ServeSlot(m, i).sessions[k] == m.sessions[k]
  {
    assert ValidSlot(m, i);
    RemovedAll(m.slots, m.slots[i]);
    var j := SlotOf(m, k, fd);
    assert ServeSlot(m, i).slots[j] == fd;
  }

  lemma {:induction false} RoundSkips(m: Mux, ready: set<int>, n: nat, k: nat, fd: int)
    requires MuxInv(m) && InSlot(m, k, fd) && fd !in ready && n <= MAX_CLIENTS
    ensures var p := ServeReady(m, ready, n); InSlot(p, k, fd) && p.sessions[k] == m.sessions[k]
  {
    if n > 0 {
      RoundSkips(m, ready, n - 1, k, fd);
      ServeReadyKeepsInv(m, ready, n - 1);
      var p := ServeReady(m, ready, n - 1);
      if Busy(p, n - 1) && p.slots[n - 1] in ready { ServeAnother(p, n - 1, k, fd); }
    }
  }

  /** A round hands out no descriptor. */
  lemma {:induction false} RoundOwners(m: Mux, ready: set<int>, n: nat, fd: int)
    requires fd in ServeReady(m, ready, n).owner
    ensures fd in m.owner && ServeReady(m, ready, n).owner[fd] == m.owner[fd]
  {
    if n > 0 { RoundOwners(m, ready, n - 1, fd); }
  }

  /** One read of a client in its slot: it stays there while it has something to add, and is answered otherwise. */
  lemma RoundAdvances(m: Mux, ready: set<int>, k: nat, fd: int)
    requires MuxInv(m) && InSlot(m, k, fd) && fd in ready
    ensures var m', s := Round(m, ready), m.sessions[k];
            && k < |m'.sessions|
            && (s.pos < Terms(s.stream) ==> InSlot(m', k, fd) && m'.sessions[k] == s.(pos := s.pos + 1))
            && (s.pos >= Terms(s.stream) ==>
                  m'.sessions[k].reply == Some(Owed(s.stream)) && m'.sessions[k].stream == s.stream)
  {
    var i := SlotOf(m, k, fd);
    RoundServesEach(m, ready, i);
    ReadAccumulates(m.sessions[k], m.results[i]);
    ServeReadyKeepsInv(m, ready, MAX_CLIENTS);
    var m' := Round(m, ready);
    assert ValidSession(m', k);
    if m'.sessions[k].reply.None? {
      var gd :| gd in m'.owner && m'.owner[gd] == k && gd in m'.slots;
      RoundOwners(m, ready, MAX_CLIENTS, gd);
    }
  }

  lemma AcceptStays(m: Mux, fd': int, stream: seq<int>, k: nat, fd: int)
    requires MuxInv(m) && InSlot(m, k, fd) && fd' > 0 && fd' != m.master && fd' !in m.owner
    ensures InSlot(AcceptStep(m, fd', stream), k, fd) && AcceptStep(m, fd', stream).sessions[k] == m.sessions[k]
  {
    var i := SlotOf(m, k, fd);
    AcceptKeepsSlot(m, fd', stream, i);
    assert AcceptStep(m, fd', stream).slots[i] == fd;
  }

  /** A client that has not been served by an event has not been touched by it. */
  lemma StepSkips(m: Mux, e: Event, k: nat, fd: int)
    requires MuxInv(m) && InSlot(m, k, fd) && !Serves(m, e, fd)
    ensures InSlot(Step(m, e), k, fd) && Step(m, e).sessions[k] == m.sessions[k]
  {
    match e
    case Accept(fd', stream) =>
      if fd' > 0 && fd' != m.master && fd' !in m.owner { AcceptStays(m, fd', stream, k, fd); }
    case Serve(ready) =>
      if ReadyClients(m, ready) { RoundSkips(m, ready, MAX_CLIENTS, k, fd); }
  }

  // A reply is final.

  lemma ServeSlotFinal(m: Mux, i: nat, k: nat)
    requires MuxInv(m) && Busy(m, i) && k < |m.sessions| && m.sessions[k].reply.Some?
    ensures ServeSlot(m, i).sessions[k] == m.sessions[k]
  {
    assert ValidSession(m, k);
    assert forall fd | fd in m.owner :: m.owner[fd] != k;
  }

  lemma {:induction false} RoundFinal(m: Mux, ready: set<int>, n: nat, k: nat)
    requires MuxInv(m) && n <= MAX_CLIENTS && k < |m.sessions| && m.sessions[k].reply.Some?
    ensures var p := ServeReady(m, ready, n); k < |p.sessions| && p.sessions[k] == m.sessions[k]
  {
    if n > 0 {
      RoundFinal(m, ready, n - 1, k);
      ServeReadyKeepsInv(m, ready, n - 1);
      var p := ServeReady(m, ready, n - 1);
      if Busy(p, n - 1) && p.slots[n - 1] in ready { ServeSlotFinal(p, n - 1, k); }
    }
  }

  lemma StepFinal(m: Mux, e: Event, k: nat)
    requires MuxInv(m) && k < |m.sessions| && m.sessions[k].reply.Some?
    ensures k < |Step(m, e).sessions| && Step(m, e).sessions[k] == m.sessions[k]
  {
    if e.Serve? { RoundFinal(m, e.ready, MAX_CLIENTS, k); }
  }

  // ---------------------------------------------------------------- runs

  /** Session `k` after `turns` rounds with its descriptor ready, when it was `s` before them: it has advanced by as
      many reads and waits in its slot, or the reads went past its last integer and it has its reply. */
  predicate Progressed(s: Session, m: Mux, k: nat, fd: int, turns: nat) {
    k < |m.sessions| &&
    if s.pos + turns <= Terms(s.stream) then InSlot(m, k, fd) && m.sessions[k] == s.(pos := s.pos + turns)
    else m.sessions[k].stream == s.stream && m.sessions[k].reply == Some(Owed(s.stream))
  }

  lemma StepProgress(m: Mux, e: Event, s: Session, k: nat, fd: int, turns: nat)
    requires MuxInv(m) && Progressed(s, m, k, fd, turns)
    ensures Progressed(s, Step(m, e), k, fd, turns + if Serves(m, e, fd) then 1 else 0)
  {
    if s.pos + turns > Terms(s.stream) {
      StepFinal(m, e, k);
    } else if Serves(m, e, fd) {
      RoundAdvances(m, e.ready, k, fd);
    } else {
      StepSkips(m, e, k, fd);
    }
  }

  lemma StepKeepsInv(m: Mux, e: Event)
    requires MuxInv(m)
    ensures MuxInv(Step(m, e))
  {
    match e
    case Accept(fd, stream) => if fd > 0 && fd != m.master && fd !in m.owner { AcceptKeepsInv(m, fd, stream); }
    case Serve(ready) => ServeReadyKeepsInv(m, ready, MAX_CLIENTS);
  }

  lemma {:induction false} RunProgress(m: Mux, es: seq<Event>, k: nat, fd: int)
    requires MuxInv(m) && InSlot(m, k, fd)
    ensures MuxInv(After(m, es)) && Progressed(m.sessions[k], After(m, es), k, fd, Turns(m, es, fd))
  {
    if es == [] {
      var i := SlotOf(m, k, fd);
    } else {
      var es', e := es[..|es| - 1], es[|es| - 1];
      RunProgress(m, es', k, fd);
      StepKeepsInv(After(m, es'), e);
      StepProgress(After(m, es'), e, m.sessions[k], k, fd, Turns(m, es', fd));
    }
  }

  lemma {:induction false} AfterFrom(m: Mux, es: seq<Event>, n: nat)
    requires n <= |es|
    ensures After(m, es) == After(After(m, es[..n]), es[n..])
    decreases |es|
  {
    if n == |es| {
      assert es[..n] == es && es[n..] == [];
    } else {
      Seqs.FrontParts(es, n);
      AfterFrom(m, es[..|es| - 1], n);
    }
  }

  /** Bounded response: whatever else connects and is served in between, a client that is in a slot with `rest`
      integers to go before its first 0 or end of file has its reply, the right one, exactly when its descriptor has
      been ready in more than `rest` rounds. */
  lemma BoundedResponse(m0: Mux, es: seq<Event>, n: nat, k: nat, fd: int)
    requires Initial(m0) && n <= |es| && InSlot(After(m0, es[..n]), k, fd)
    ensures var m := After(m0, es[..n]);
            var s := m.sessions[k];
            var rest := Terms(s.stream) - s.pos;
            && k < |After(m0, es).sessions| && rest >= 0
            && After(m0, es).sessions[k].stream == s.stream
            && After(m0, es).sessions[k].reply == if Turns(m, es[n..], fd) > rest then Some(Owed(s.stream)) else None
  {
    var m := After(m0, es[..n]);
    Reachable(m0, es[..n]);
    var i := SlotOf(m, k, fd);
    AfterFrom(m0, es, n);
    RunProgress(m, es[n..], k, fd);
  }

  // ---------------------------------------------------------------- from the connection to the reply

  /** A connection that can happen now. */
  predicate Connects(m: Mux, e: Event) { e.Accept? && e.fd > 0 && e.fd != m.master && e.fd !in m.owner }

  /** In every reachable state, a client that connects is in a slot if and only if one was free; nothing has been read
      from it yet. */
  lemma AcceptGetsSlotIff(m0: Mux, es: seq<Event>, fd: int, stream: seq<int>)
    requires Initial(m0) && Connects(After(m0, es), Accept(fd, stream))
    ensures var m, m' := After(m0, es), Step(After(m0, es), Accept(fd, stream));
            && m'.sessions == m.sessions + [Session(stream, 0, None)] && fd in m'.owner && m'.owner[fd] == |m.sessions|
            && (InSlot(m', |m.sessions|, fd) <==> FREE in m.slots)
            && |m'.slots| == |m.slots|
            && (forall i | 0 <= i < |m.slots| && m.slots[i] != FREE :: m'.slots[i] == m.slots[i])
  {
    var m := After(m0, es);
    Reachable(m0, es);
    forall i: nat | i < MAX_CLIENTS ensures m.slots[i] != fd { AcceptKeepsSlot(m, fd, stream, i); }
    AddedDistinct(m.slots, fd);
  }

  /** Session `k` is open on descriptor `fd` but in no slot. */
  predicate Unserved(m: Mux, s: Session, k: nat, fd: int) {
    k < |m.sessions| && fd > 0 && fd in m.owner && m.owner[fd] == k && fd !in m.slots && m.sessions[k] == s
  }

  lemma {:induction false} RoundUnserved(m: Mux, ready: set<int>, n: nat, s: Session, k: nat, fd: int)
    requires MuxInv(m) && Unserved(m, s, k, fd) && n <= MAX_CLIENTS
    ensures Unserved(ServeReady(m, ready, n), s, k, fd)
  {
    if n > 0 {
      RoundUnserved(m, ready, n - 1, s, k, fd);
      ServeReadyKeepsInv(m, ready, n - 1);
      var p := ServeReady(m, ready, n - 1);
      if Busy(p, n - 1) && p.slots[n - 1] in ready { SlotUnserved(p, n - 1, s, k, fd); }
    }
  }

  lemma SlotUnserved(m: Mux, i: nat, s: Session, k: nat, fd: int)
    requires MuxInv(m) && Busy(m, i) && Unserved(m, s, k, fd)
    ensures Unserved(ServeSlot(m, i), s, k, fd)
  {
    assert m.slots[i] in m.slots && m.slots[i] != fd;
    assert ValidSlot(m, i);
    RemovedAll(m.slots, m.slots[i]);
  }

  lemma StepUnserved(m: Mux, e: Event, s: Session, k: nat, fd: int)
    requires MuxInv(m) && Unserved(m, s, k, fd)
    ensures Unserved(Step(m, e), s, k, fd)
  {
    if e.Serve? { RoundUnserved(m, e.ready, MAX_CLIENTS, s, k, fd); }
  }

  /** Without a slot a client is never served. */
  lemma {:induction false} RunUnserved(m: Mux, es: seq<Event>, s: Session, k: nat, fd: int)
    requires MuxInv(m) && Unserved(m, s, k, fd)
    ensures MuxInv(After(m, es)) && Unserved(After(m, es), s, k, fd)
  {
    if es != [] {
      var es', e := es[..|es| - 1], es[|es| - 1];
      RunUnserved(m, es', s, k, fd);
      StepKeepsInv(After(m, es'), e);
      StepUnserved(After(m, es'), e, s, k, fd);
    }
  }

  lemma ServedFromSlot(m: Mux, es: seq<Event>, stream: seq<int>, k: nat, fd: int)
    requires MuxInv(m) && InSlot(m, k, fd) && m.sessions[k] == Session(stream, 0, None)
    ensures k < |After(m, es).sessions|
    ensures After(m, es).sessions[k].reply == if Turns(m, es, fd) > Terms(stream) then Some(Owed(stream)) else None
  {
    RunProgress(m, es, k, fd);
  }

  lemma AfterNext(m: Mux, es: seq<Event>, n: nat)
    requires n < |es|
    ensures After(m, es[..n + 1]) == Step(After(m, es[..n]), es[n])
  {
    assert es[..n + 1][..n] == es[..n];
  }

  /** From the connection to the reply, in every run: a client that connects gets a reply if and only if a slot was
      free and its descriptor has since been ready in more rounds than it has integers before its first 0 or end of
      file; the reply is then their sum. */
  lemma ConnectionToReply(m0: Mux, es: seq<Event>, n: nat)
    requires Initial(m0) && n < |es| && Connects(After(m0, es[..n]), es[n])
    ensures var m, stream := After(m0, es[..n]), es[n].stream;
            var turns := Turns(After(m0, es[..n + 1]), es[n + 1..], es[n].fd);
            && |m.sessions| < |After(m0, es).sessions|
            && After(m0, es).sessions[|m.sessions|].reply
               == if FREE in m.slots && turns > Terms(stream) then Some(Owed(stream)) else None
  {
    var m, m', fd, stream := After(m0, es[..n]), After(m0, es[..n + 1]), es[n].fd, es[n].stream;
    AcceptGetsSlotIff(m0, es[..n], fd, stream);
    AfterNext(m0, es, n);
    Reachable(m0, es[..n + 1]);
    AfterFrom(m0, es, n + 1);
    if FREE in m.slots {
      ServedFromSlot(m', es[n + 1..], stream, |m.sessions|, fd);
    } else {
      RunUnserved(m', es[n + 1..], Session(stream, 0, None), |m.sessions|, fd);
    }
  }
}
