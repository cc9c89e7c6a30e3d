/** The monitored descriptor table of fd_set_mgmt.c, shared by both servers. */
module FdSets {
  import opened Seqs

  const MAX_CLIENTS: nat := 32
  const FREE: int := -1

  /** First-free insertion; a full table ignores the descriptor. */
  function Added(s: seq<int>, fd: int): (t: seq<int>)
    ensures |t| == |s|
  {
    var i := IndexOf(s, FREE);
    if i == |s| then s else s[i := fd]
  }

  /** First-match removal. */
  function Removed(s: seq<int>, fd: int): (t: seq<int>)
    ensures |t| == |s|
  {
    var i := IndexOf(s, fd);
    if i == |s| then s else s[i := FREE]
  }

  /** Occupied slots hold different descriptors. */
  ghost predicate Distinct(s: seq<int>) { DistinctExcept(s, FREE) }

  /** With distinct descriptors, removal empties exactly the slot that holds the descriptor. */
  lemma RemovedAll(s: seq<int>, fd: int)
    requires Distinct(s) && fd != FREE
    ensures forall i | 0 <= i < |s| :: Removed(s, fd)[i] == if s[i] == fd then FREE else s[i]
    ensures Distinct(Removed(s, fd)) && fd !in Removed(s, fd)
  {
    var k, t := IndexOf(s, fd), Removed(s, fd);
    forall i | 0 <= i < |s| ensures t[i] == if s[i] == fd then FREE else s[i] {
      if i < k { assert s[..k][i] == s[i]; }
    }
  }

  /** A new descriptor keeps the table distinct and changes one free slot, or nothing when there is none. */
  lemma AddedDistinct(s: seq<int>, fd: int)
    requires Distinct(s) && fd != FREE && fd !in s
    ensures Distinct(Added(s, fd))
    ensures fd in Added(s, fd) <==> FREE in s
    ensures forall i | 0 <= i < |s| :: Added(s, fd)[i] == s[i] || (s[i] == FREE && Added(s, fd)[i] == fd)
  {
    IndexOfIn(s, FREE);
    var i := IndexOf(s, FREE);
    if i < |s| { assert Added(s, fd)[i] == fd; }
  }

  function NoClients(): (s: seq<int>)
    ensures |s| == MAX_CLIENTS - 2 && forall i | 0 <= i < |s| :: s[i] == FREE
  { seq(MAX_CLIENTS - 2, _ => FREE) }

  /** The table after the server has added stdin and its master socket. */
  lemma InitialSlots(s: seq<int>, master: int)
    requires |s| == MAX_CLIENTS && (forall i | 0 <= i < |s| :: s[i] == FREE) && master > 0
    ensures Added(Added(s, 0), master) == [0, master] + NoClients()
  {
    IndexOfUnique(s, FREE, 0);
    IndexOfUnique(s[0 := 0], FREE, 1);
  }

  class FdSet {
    const slots: array<int>

    /** `initialize_monitor_fd_set`. */
    constructor ()
      ensures fresh(slots) && slots.Length == MAX_CLIENTS
      ensures forall i | 0 <= i < MAX_CLIENTS :: slots[i] == FREE
    {
      slots := new int[MAX_CLIENTS];
      new;
      for i := 0 to MAX_CLIENTS
        invariant forall j | 0 <= j < i :: slots[j] == FREE
      {
        slots[i] := FREE;
      }
    }

    /** `add_to_monitored_fd_set`. */
    method Add(fd: int)
      modifies slots
      ensures slots[..] == Added(old(slots[..]), fd)
    {
      var i := 0;
      while i < slots.Length
        invariant i <= slots.Length && FREE !in slots[..i]
        invariant slots[..] == old(slots[..])
      {
        if slots[i] != FREE {
          i := i + 1;
          continue;
        }
        IndexOfUnique(slots[..], FREE, i);
        slots[i] := fd;
        return;
      }
      IndexOfUnique(slots[..], FREE, slots.Length);
    }

    /** `remove_from_monitored_fd_set`. */
    method Remove(fd: int)
      modifies slots
      ensures slots[..] == Removed(old(slots[..]), fd)
    {
      var i := 0;
      while i < slots.Length
        invariant i <= slots.Length && fd !in slots[..i]
        invariant slots[..] == old(slots[..])
      {
        if slots[i] == fd {
          IndexOfUnique(slots[..], fd, i);
          slots[i] := FREE;
          return;
        }
        i := i + 1;
      }
      IndexOfUnique(slots[..], fd, slots.Length);
    }

    /** `refresh_fd_set`: the set handed to `select`. */
    method Refresh() returns (fds: set<int>)
      ensures forall fd :: fd in fds <==> fd != FREE && fd in slots[..]
    {
      fds := {};
      for i := 0 to slots.Length
        invariant forall fd :: fd in fds <==> fd != FREE && fd in slots[..i]
      {
        if slots[i] != FREE { fds := fds + {slots[i]}; }
      }
      assert slots[..slots.Length] == slots[..];
    }

    /** `get_max_fd`. */
    method GetMaxFd() returns (max: int)
      ensures forall fd | fd in slots[..] :: fd <= max
      ensures max == -1 || max in slots[..]
      ensures -1 <= max
    {
      max := -1;
      for i := 0 to slots.Length
        invariant forall j | 0 <= j < i :: slots[j] <= max
        invariant max == -1 || max in slots[..]
        invariant -1 <= max
      {
        if slots[i] > max { max := slots[i]; }
      }
    }
  }

  /** What `select` watches lies below the bound it is given. */
  method WatchedSet(fds: FdSet) returns (watched: set<int>, nfds: int)
    ensures forall fd :: fd in watched <==> fd != FREE && fd in fds.slots[..]
    ensures forall fd | fd in watched :: fd < nfds
    ensures nfds == 0 || nfds - 1 in fds.slots[..]
  {
    watched := fds.Refresh();
    var max := fds.GetMaxFd();
    nfds := max + 1;
  }
}
