/** The two sum servers of unix_domain_sockets: one client at a time, and multiplexed over the descriptor table.
    The first is the specification of the second. */
module SumServers {
  import opened FdSets
  import Seqs
  import opened Wrappers

  // ---------------------------------------------------------------- one client at a time

  /** What a read returns: the next integer of the client, or the zeroed buffer at end of file. */
  function ReadAt(stream: seq<int>, pos: nat): int { if pos < |stream| then stream[pos] else 0 }

  function Sum(s: seq<int>): int { if s == [] then 0 else Sum(s[..|s| - 1]) + s[|s| - 1] }

  /** Number of integers before the first 0 or the end of file. */
  function Terms(stream: seq<int>): (n: nat)
    ensures n <= |stream| && 0 !in stream[..n] && ReadAt(stream, n) == 0
  { Seqs.IndexOf(stream, 0) }

  /** The sum as the only function that agrees with addition on two parts. */
  lemma {:induction false} SumConcat(s: seq<int>, t: seq<int>)
    ensures Sum(s + t) == Sum(s) + Sum(t)
    ensures |s| == 1 ==> Sum(s) == s[0]
  {
    if t == [] {
      assert s + t == s;
      if |s| == 1 { assert Sum(s[..0]) == 0; }
    } else {
      assert (s + t)[..|s + t| - 1] == s + t[..|t| - 1];
      SumConcat(s, t[..|t| - 1]);
    }
  }

  /** The reply a client is owed: the sum of its own integers up to its first 0 or end of file. */
  function Owed(stream: seq<int>): int { Sum(stream[..Terms(stream)]) }

  /** `handle_service_request` and the reply of the server without multiplexing. */
  method ServeOne(stream: seq<int>) returns (sum: int, taken: nat)
    ensures sum == Owed(stream) && taken == Terms(stream) + 1
  {
    sum, taken := 0, 0;
    while true
      invariant taken <= Terms(stream) && sum == Sum(stream[..taken])
      decreases Terms(stream) - taken
    {
      var data := ReadAt(stream, taken);
      taken := taken + 1;
      if data == 0 {
        Seqs.IndexOfUnique(stream, 0, taken - 1);
        break;
      }
      assert stream[..taken][..taken - 1] == stream[..taken - 1];
      sum := sum + data;
    }
  }

  // ---------------------------------------------------------------- multiplexed

  /** One connection: what its client sends, how much the server has read, the reply written to it. */
  datatype Session = Session(stream: seq<int>, pos: nat, reply: Option<int>)

  /** `owner` says which session an open descriptor belongs to; a closed descriptor may come back for another. */
  datatype Mux = Mux(slots: seq<int>, results: seq<int>, master: int, owner: map<int, nat>, sessions: seq<Session>)

  /** `handle_connection_initiation_request`. */
  function AcceptStep(m: Mux, fd: int, stream: seq<int>): Mux {
    m.(slots := Added(m.slots, fd), owner := m.owner[fd := |m.sessions|],
       sessions := m.sessions + [Session(stream, 0, None)])
  }

  /** Slot `i` holds an open client descriptor. */
  predicate Busy(m: Mux, i: nat) {
    2 <= i < |m.slots| == |m.results| && m.slots[i] in m.owner && m.owner[m.slots[i]] < |m.sessions|
  }

  /** Slot `i` of `handle_service_request` when its descriptor `fd` is ready: one read, added to the slot's
      accumulator, or answered with it. */
  function ServeSlot(m: Mux, i: nat): Mux
    requires Busy(m, i)
  {
    var fd, k := m.slots[i], m.owner[m.slots[i]];
    var s := m.sessions[k];
    var data := ReadAt(s.stream, s.pos);
    if data == 0 then
      m.(sessions := m.sessions[k := s.(pos := s.pos + 1, reply := Some(m.results[i]))],
         owner := m.owner - {fd}, results := m.results[i := 0], slots := Removed(m.slots, fd))
    else
      m.(sessions := m.sessions[k := s.(pos := s.pos + 1)], results := m.results[i := m.results[i] + data])
  }

  /** `select` reports clients only: stdin and the master socket are dealt with before. */
  predicate ReadyClients(m: Mux, ready: set<int>) { ready !! {FREE, 0, m.master} }

  /** A client in its slot: every integer read so far was not 0 and the accumulator is their sum. */
  ghost predicate Accumulates(s: Session, result: int) {
    s.reply.None? && s.pos <= Terms(s.stream) && result == Sum(s.stream[..s.pos])
  }

  /** A session is in a slot, or was never served, or was answered what it was owed and is closed. */
  ghost predicate ValidSession(m: Mux, k: nat)
    requires k < |m.sessions|
  {
    var s := m.sessions[k];
    match s.reply
    case Some(r) => r == Owed(s.stream) && s.pos == Terms(s.stream) + 1 && forall fd | fd in m.owner :: m.owner[fd] != k
    case None => s.pos == 0 || exists fd :: fd in m.owner && m.owner[fd] == k && fd in m.slots
  }

  ghost predicate ValidSlot(m: Mux, i: nat)
    requires i < |m.slots| == |m.results|
  {
    if i < 2 || m.slots[i] == FREE then m.results[i] == 0
    else
      && m.slots[i] in m.owner && m.owner[m.slots[i]] < |m.sessions|
      && Accumulates(m.sessions[m.owner[m.slots[i]]], m.results[i])
  }

  ghost predicate MuxInv(m: Mux) {
    match m
    case Mux(slots, results, master, owner, sessions) =>
      && |slots| == |results| == MAX_CLIENTS && Distinct(slots)
      && slots[0] == 0 && slots[1] == master && master > 0
      && (forall fd | fd in owner :: fd > 0 && fd != master && owner[fd] < |sessions|)
      && (forall fd, gd | fd in owner && gd in owner && fd != gd :: owner[fd] != owner[gd])
      && (forall i: nat | i < MAX_CLIENTS :: ValidSlot(m, i))
      && (forall k: nat | k < |sessions| :: ValidSession(m, k))
  }

  lemma SumNext(stream: seq<int>, pos: nat)
    requires pos < |stream|
    ensures Sum(stream[..pos + 1]) == Sum(stream[..pos]) + stream[pos]
  {
    assert stream[..pos + 1][..pos] == stream[..pos];
  }

  lemma ReadAccumulates(s: Session, result: int)
    requires Accumulates(s, result)
    ensures var data := ReadAt(s.stream, s.pos);
            if data == 0 then result == Owed(s.stream) && s.pos == Terms(s.stream)
            else Accumulates(s.(pos := s.pos + 1), result + data)
  {
    if ReadAt(s.stream, s.pos) == 0 {
      assert s.pos == Terms(s.stream);
    } else {
      SumNext(s.stream, s.pos);
    }
  }

  /** Slots and sessions that `ServeSlot(m, i)` does not touch. */
  lemma OtherSlot(m: Mux, i: nat, j: nat)
    requires MuxInv(m) && Busy(m, i) && j < MAX_CLIENTS && j != i
    ensures ValidSlot(ServeSlot(m, i), j)
  {
    assert ValidSlot(m, i) && ValidSlot(m, j);
    RemovedAll(m.slots, m.slots[i]);
  }

  lemma SameSlot(m: Mux, i: nat)
    requires MuxInv(m) && Busy(m, i)
    ensures ValidSlot(ServeSlot(m, i), i)
  {
    assert ValidSlot(m, i);
    RemovedAll(m.slots, m.slots[i]);
    ReadAccumulates(m.sessions[m.owner[m.slots[i]]], m.results[i]);
  }

  lemma OtherSession(m: Mux, i: nat, k: nat)
    requires MuxInv(m) && Busy(m, i) && k < |m.sessions| && k != m.owner[m.slots[i]]
    ensures ValidSession(ServeSlot(m, i), k)
  {
    assert ValidSlot(m, i) && ValidSession(m, k);
    RemovedAll(m.slots, m.slots[i]);
    var m' := ServeSlot(m, i);
    if m.sessions[k].reply.None? && m.sessions[k].pos != 0 {
      var fd :| fd in m.owner && m.owner[fd] == k && fd in m.slots;
      assert fd in m'.owner && m'.owner[fd] == k;
      var j :| 0 <= j < |m.slots| && m.slots[j] == fd;
      assert m'.slots[j] == fd;
    }
  }

  lemma SameSession(m: Mux, i: nat)
    requires MuxInv(m) && Busy(m, i)
    ensures ValidSession(ServeSlot(m, i), m.owner[m.slots[i]])
  {
    assert ValidSlot(m, i);
    var fd, m' := m.slots[i], ServeSlot(m, i);
    var k := m.owner[fd];
    var s := m.sessions[k];
    ReadAccumulates(s, m.results[i]);
    if ReadAt(s.stream, s.pos) != 0 {
      assert fd in m'.owner && m'.owner[fd] == k && m'.slots[i] == fd;
    }
  }

  /** One served slot keeps the invariant. */
  lemma ServeSlotKeepsInv(m: Mux, i: nat)
    requires MuxInv(m) && Busy(m, i)
    ensures MuxInv(ServeSlot(m, i))
  {
    SameSession(m, i);
    SameSlot(m, i);
    RemovedAll(m.slots, m.slots[i]);
    forall j: nat | j < MAX_CLIENTS && j != i ensures ValidSlot(ServeSlot(m, i), j) { OtherSlot(m, i, j); }
    forall k: nat | k < |m.sessions| && k != m.owner[m.slots[i]] ensures ValidSession(ServeSlot(m, i), k) {
      OtherSession(m, i, k);
    }
  }

  // ---------------------------------------------------------------- rounds and runs

  /** The first `n` slots of one call of `handle_service_request`, with the set `select` reported. */
  function ServeReady(m: Mux, ready: set<int>, n: nat): Mux {
    if n == 0 then m
    else
      var p := ServeReady(m, ready, n - 1);
      if Busy(p, n - 1) && p.slots[n - 1] in ready then ServeSlot(p, n - 1) else p
  }

  function Round(m: Mux, ready: set<int>): Mux { ServeReady(m, ready, MAX_CLIENTS) }

  lemma {:induction false} ServeReadyKeepsInv(m: Mux, ready: set<int>, n: nat)
    requires MuxInv(m) && n <= MAX_CLIENTS
    ensures MuxInv(ServeReady(m, ready, n)) && ServeReady(m, ready, n).master == m.master
  {
    if n > 0 {
      ServeReadyKeepsInv(m, ready, n - 1);
      var p := ServeReady(m, ready, n - 1);
      if Busy(p, n - 1) && p.slots[n - 1] in ready { ServeSlotKeepsInv(p, n - 1); }
    }
  }

  /** A slot is ready for service exactly when its descriptor is in the set: stdin, the master socket and free
      slots never are. */
  lemma BusyIffReady(m: Mux, ready: set<int>, i: nat)
    requires MuxInv(m) && ReadyClients(m, ready) && i < MAX_CLIENTS && m.slots[i] in ready
    ensures Busy(m, i)
  {
    assert ValidSlot(m, i);
  }

  lemma AcceptKeepsSlot(m: Mux, fd: int, stream: seq<int>, i: nat)
    requires MuxInv(m) && fd > 0 && fd != m.master && fd !in m.owner && i < MAX_CLIENTS
    ensures m.slots[i] != fd && ValidSlot(AcceptStep(m, fd, stream), i)
    ensures m.slots[i] != FREE ==> Added(m.slots, fd)[i] == m.slots[i]
  {
    assert ValidSlot(m, i);
  }

  lemma AcceptKeepsSession(m: Mux, fd: int, stream: seq<int>, k: nat)
    requires MuxInv(m) && fd > 0 && fd != m.master && fd !in m.owner && k < |m.sessions|
    ensures ValidSession(AcceptStep(m, fd, stream), k)
  {
    var m' := AcceptStep(m, fd, stream);
    assert ValidSession(m, k);
    if m.sessions[k].reply.None? && m.sessions[k].pos != 0 {
      var gd :| gd in m.owner && m.owner[gd] == k && gd in m.slots;
      var j :| 0 <= j < |m.slots| && m.slots[j] == gd;
      AcceptKeepsSlot(m, fd, stream, j);
      assert m'.slots[j] == gd && gd in m'.owner && m'.owner[gd] == k;
    }
  }

  lemma AcceptKeepsInv(m: Mux, fd: int, stream: seq<int>)
    requires MuxInv(m) && fd > 0 && fd != m.master && fd !in m.owner
    ensures MuxInv(AcceptStep(m, fd, stream))
  {
    forall i: nat | i < MAX_CLIENTS
      ensures m.slots[i] != fd && ValidSlot(AcceptStep(m, fd, stream), i)
    {
      AcceptKeepsSlot(m, fd, stream, i);
    }
    AcceptKeepsSlot(m, fd, stream, 0);
    AcceptKeepsSlot(m, fd, stream, 1);
    AddedDistinct(m.slots, fd);
    forall k: nat | k < |m.sessions| ensures ValidSession(AcceptStep(m, fd, stream), k) {
      AcceptKeepsSession(m, fd, stream, k);
    }
  }

  datatype Event = Accept(fd: int, stream: seq<int>) | Serve(ready: set<int>)

  /** `accept` returns a descriptor that is not open; closed ones may return. Events that are not possible do
      not happen. */
  function Step(m: Mux, e: Event): Mux {
    match e
    case Accept(fd, stream) => if fd > 0 && fd != m.master && fd !in m.owner then AcceptStep(m, fd, stream) else m
    case Serve(ready) => if ReadyClients(m, ready) then Round(m, ready) else m
  }

  function After(m: Mux, es: seq<Event>): Mux {
    if es == [] then m else Step(After(m, es[..|es| - 1]), es[|es| - 1])
  }

  ghost predicate Initial(m: Mux) {
    && m.master > 0 && m.slots == [0, m.master] + NoClients()
    && m.results == seq(MAX_CLIENTS, _ => 0) && m.owner == map[] && m.sessions == []
  }

  lemma {:induction false} Reachable(m0: Mux, es: seq<Event>)
    requires Initial(m0)
    ensures MuxInv(After(m0, es))
  {
    if es != [] {
      var m, e := After(m0, es[..|es| - 1]), es[|es| - 1];
      Reachable(m0, es[..|es| - 1]);
      match e
      case Accept(fd, stream) => if fd > 0 && fd != m.master && fd !in m.owner { AcceptKeepsInv(m, fd, stream); }
      case Serve(ready) => ServeReadyKeepsInv(m, ready, MAX_CLIENTS);
    }
  }

  /** Multiplexing refines the sequential server: in every run, whatever the interleaving and however often
      descriptors and slots are reused, a reply is what the one-client server computes from that client's own
      integers, and comes with the same number of reads; a client not yet answered has nothing read twice,
      skipped, or read past its first 0. */
  lemma MultiplexingRefinesSequential(m0: Mux, es: seq<Event>, k: nat)
    requires Initial(m0) && k < |After(m0, es).sessions|
    ensures var s := After(m0, es).sessions[k];
            match s.reply
            case Some(r) => r == Owed(s.stream) && s.pos == Terms(s.stream) + 1
            case None => s.pos <= Terms(s.stream)
  {
    Reachable(m0, es);
    var m := After(m0, es);
    assert ValidSession(m, k);
    var s := m.sessions[k];
    if s.reply.None? && s.pos != 0 {
      var fd :| fd in m.owner && m.owner[fd] == k && fd in m.slots;
      var i :| 0 <= i < |m.slots| && m.slots[i] == fd;
      assert ValidSlot(m, i);
    }
  }

  /** The slot table in every run: occupied slots hold different descriptors and a free slot's accumulator is 0. */
  lemma SlotTableInvariant(m0: Mux, es: seq<Event>, i: nat)
    requires Initial(m0) && i < MAX_CLIENTS
    ensures var m := After(m0, es);
            && Distinct(m.slots) && |m.slots| == |m.results| == MAX_CLIENTS
            && (m.slots[i] == FREE ==> m.results[i] == 0)
  {
    Reachable(m0, es);
    assert ValidSlot(After(m0, es), i);
  }

  /** Session `k` has been taken off every other descriptor than `fd`, and `fd` off every other slot than `i`. */
  ghost predicate OnlyAt(m: Mux, k: nat, fd: int, i: nat) {
    && (forall gd | gd in m.owner && gd != fd :: m.owner[gd] != k)
    && (forall j | 0 <= j < |m.slots| && m.slots[j] == fd :: j == i)
  }

  lemma ServeOther(m: Mux, i: nat, n: nat, k: nat, fd: int)
    requires Busy(m, n) && n != i && Distinct(m.slots) && m.slots[n] != FREE
    requires OnlyAt(m, k, fd, i) && fd != FREE && k < |m.sessions|
    ensures var m' := ServeSlot(m, n);
            && OnlyAt(m', k, fd, i) && |m'.sessions| == |m.sessions| && m'.sessions[k] == m.sessions[k]
            && (Busy(m, i) && m.slots[i] == fd ==>
                  && Busy(m', i) && m'.slots[i] == fd
                  && m'.owner[fd] == m.owner[fd] && m'.results[i] == m.results[i])
  {
    RemovedAll(m.slots, m.slots[n]);
  }

  lemma ServeItself(m: Mux, i: nat)
    requires Busy(m, i) && Distinct(m.slots) && m.slots[i] != FREE && OnlyAt(m, m.owner[m.slots[i]], m.slots[i], i)
    ensures OnlyAt(ServeSlot(m, i), m.owner[m.slots[i]], m.slots[i], i) && |ServeSlot(m, i).sessions| == |m.sessions|
  {
    RemovedAll(m.slots, m.slots[i]);
  }

  /** Slot `i` of `m` before its turn in a round that has reached state `p`, and after it. */
  ghost predicate Waiting(m: Mux, p: Mux, i: nat)
    requires Busy(m, i)
  {
    match m.owner[m.slots[i]]
    case k =>
      && |p.sessions| == |m.sessions| && OnlyAt(p, k, m.slots[i], i) && Busy(p, i)
      && p.slots[i] == m.slots[i] && p.owner[p.slots[i]] == k
      && p.sessions[k] == m.sessions[k] && p.results[i] == m.results[i]
  }

  ghost predicate Served(m: Mux, p: Mux, i: nat)
    requires Busy(m, i)
  {
    match m.owner[m.slots[i]]
    case k =>
      && |p.sessions| == |m.sessions| && OnlyAt(p, k, m.slots[i], i)
      && p.sessions[k] == ServeSlot(m, i).sessions[k]
  }

  lemma RoundTurn(m: Mux, p: Mux, i: nat, n: nat)
    requires MuxInv(p) && Busy(m, i) && Busy(p, n) && m.slots[i] != FREE && p.slots[n] != FREE
    ensures n == i && Waiting(m, p, i) ==> Served(m, ServeSlot(p, n), i)
    ensures n != i && Waiting(m, p, i) ==> Waiting(m, ServeSlot(p, n), i)
    ensures n != i && Served(m, p, i) ==> Served(m, ServeSlot(p, n), i)
  {
    var fd, k := m.slots[i], m.owner[m.slots[i]];
    if n == i {
      if Waiting(m, p, i) { ServeItself(p, i); }
    } else if Waiting(m, p, i) || Served(m, p, i) {
      ServeOther(p, i, n, k, fd);
    }
  }

  /** A round leaves a slot and its session alone until its turn, and its session alone after it. */
  lemma {:induction false} RoundTurns(m: Mux, ready: set<int>, i: nat, n: nat)
    requires MuxInv(m) && Busy(m, i) && m.slots[i] in ready && n <= MAX_CLIENTS
    ensures if n <= i then Waiting(m, ServeReady(m, ready, n), i) else Served(m, ServeReady(m, ready, n), i)
  {
    if n > 0 {
      RoundTurns(m, ready, i, n - 1);
      ServeReadyKeepsInv(m, ready, n - 1);
      var p := ServeReady(m, ready, n - 1);
      if Busy(p, n - 1) { RoundTurn(m, p, i, n - 1); }
    }
  }

  /** One round gives every ready client exactly one read, with the same effect as if it were alone. */
  lemma RoundServesEach(m: Mux, ready: set<int>, i: nat)
    requires MuxInv(m) && Busy(m, i) && m.slots[i] in ready
    ensures var k := m.owner[m.slots[i]];
            k < |Round(m, ready).sessions| && Round(m, ready).sessions[k] == ServeSlot(m, i).sessions[k]
  {
    RoundTurns(m, ready, i, MAX_CLIENTS);
  }
}
