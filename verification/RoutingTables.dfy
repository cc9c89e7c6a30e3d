/** The routing table of rtm.c: a list of heap-allocated records walked and changed in place. */
module RoutingTables {
  import Addresses
  import opened CText
  import opened Records
  import opened Tables

  /** `nodes` holds the data pointers of the linked list in order; `live` holds the records this table has
      allocated and not yet freed, `allocs` and `frees` count both. */
  class RoutingTable {
    var nodes: seq<MsgBody>
    ghost var live: set<MsgBody>
    ghost var allocs: nat
    ghost var frees: nat

    /** Every node owns its own record, nothing is leaked and nothing in the list is freed. */
    ghost predicate Valid()
      reads this
    {
      && (forall i, j :: 0 <= i < j < |nodes| ==> nodes[i] != nodes[j])
      && live == (set r | r in nodes)
      && allocs - frees == |nodes|
    }

    function Contents(): (t: Table)
      reads this, nodes
      ensures |t| == |nodes| && forall i | 0 <= i < |t| :: t[i] == nodes[i].View()
    {
      seq(|nodes|, i requires 0 <= i < |nodes| reads this, nodes => nodes[i].View())
    }

    /** `routing_table_create`. */
    constructor ()
      ensures Valid() && nodes == []
    {
      nodes, live, allocs, frees := [], {}, 0, 0;
    }

    /** `insert_end` of the list library, which is assumed to succeed. */
    method InsertEnd(record: MsgBody) returns (rc: int)
      modifies this`nodes
      ensures rc == 0 && nodes == old(nodes) + [record]
    {
      nodes := nodes + [record];
      rc := 0;
    }

    /** `remove_at` of the list library. */
    method RemoveAt(index: nat) returns (record: MsgBody)
      requires index < |nodes|
      modifies this`nodes
      ensures record == old(nodes)[index] && nodes == old(nodes)[..index] + old(nodes)[index + 1..]
    {
      record := nodes[index];
      nodes := nodes[..index] + nodes[index + 1..];
    }

    /** `free`: only for a record that is still allocated. */
    ghost method Free(record: MsgBody)
      requires record in live
      modifies this`live, this`frees
      ensures live == old(live) - {record} && frees == old(frees) + 1
    {
      live, frees := live - {record}, frees + 1;
    }

    /** `routing_table_insert`. */
    method Insert(record: MsgBody) returns (rc: int)
      requires Valid()
      modifies this
      ensures Valid() && rc == 0
      ensures |nodes| == |old(nodes)| + 1 && nodes[..|old(nodes)|] == old(nodes) && fresh(live - old(live))
      ensures Contents() == Inserted(old(Contents()), old(record.View()))
      ensures allocs == old(allocs) + 1 && frees == old(frees)
    {
      var actual := new MsgBody();
      live, allocs := live + {actual}, allocs + 1;
      actual.destination := Prefix(record.destination, Addresses.IP_ADDR_LEN);
      actual.mask := record.mask;
      actual.gateway := Prefix(record.gateway, Addresses.IP_ADDR_LEN);
      actual.oif := Prefix(record.oif, OIF_LEN);
      rc := InsertEnd(actual);
    }

    /** `routing_table_contains_dst_subnet`. */
    method ContainsDstSubnet(destination: string, mask: Addresses.u16) returns (found: bool)
      ensures found == HasKey(Contents(), SubnetKey(destination, mask))
    {
      var i := 0;
      while i < |nodes|
        invariant i <= |nodes|
        invariant forall j | 0 <= j < i :: nodes[j].View().Key() != SubnetKey(destination, mask)
      {
        if destination == nodes[i].destination && mask == nodes[i].mask {
          FindKeyUnique(Contents(), SubnetKey(destination, mask), i);
          return true;
        }
        i := i + 1;
      }
      FindKeyUnique(Contents(), SubnetKey(destination, mask), |nodes|);
      return false;
    }

    /** `routing_table_update`. */
    method Update(record: MsgBody) returns (rc: int)
      requires Valid() && record !in nodes
      modifies live
      ensures Valid() && nodes == old(nodes)
      ensures rc == if HasKey(old(Contents()), record.View().Key()) then 0 else -1
      ensures Contents() == Updated(old(Contents()), record.View())
    {
      ghost var t, k := Contents(), record.View().Key();
      var found := ContainsDstSubnet(record.destination, record.mask);
      if !found { return -1; }
      var i := 0;
      while i < |nodes|
        invariant i <= |nodes| && i <= FindKey(t, k)
        invariant Contents() == t
      {
        var current := nodes[i];
        assert current.View() == t[i];
        if current.destination == record.destination && current.mask == record.mask {
          current.gateway := Prefix(record.gateway, Addresses.IP_ADDR_LEN);
          current.oif := Prefix(record.oif, OIF_LEN);
          return 0;
        }
        i := i + 1;
      }
      return -1;
    }

    /** The search loop of `routing_table_delete`: `index` ends on the first match, on the last record when
        there is none, and at -1 when the table is empty; `current` is the record at `index` all along. */
    method SearchForDeletion(record: MsgBody) returns (index: int, current: MsgBody?)
      ensures index == if nodes == [] then -1
                       else if HasKey(Contents(), record.View().Key()) then FindKey(Contents(), record.View().Key())
                       else |nodes| - 1
      ensures if index == -1 then current == null else current == nodes[index]
    {
      ghost var t, k := Contents(), record.View().Key();
      index, current := -1, null;
      var i := 0;
      while i < |nodes|
        invariant i <= |nodes| && index == i - 1 && i <= FindKey(t, k)
        invariant if index == -1 then current == null else current == nodes[index]
      {
        index := index + 1;
        current := nodes[i];
        assert current.View() == t[i];
        if current.destination == record.destination && current.mask == record.mask { break; }
        i := i + 1;
      }
    }

    /** Taking the record at `index` out of the list and freeing `current`. */
    method Unlink(index: nat, current: MsgBody)
      requires Valid() && index < |nodes| && current == nodes[index]
      modifies this
      ensures Valid() && Contents() == RemovedAt(old(Contents()), index)
      ensures live == old(live) - {current} && frees == old(frees) + 1 && allocs == old(allocs)
      ensures forall n | n in nodes :: n in old(nodes)
    {
      var _ := RemoveAt(index);
      Free(current);
    }

    /** `routing_table_delete`: the object freed is the one the search stopped at. */
    method Delete(record: MsgBody) returns (rc: int)
      requires Valid()
      modifies this
      ensures Valid()
      ensures rc == if old(nodes) == [] then -1 else 0
      ensures Contents() == Deleted(old(Contents()), old(record.View().Key()))
      ensures live <= old(live) && forall n | n in nodes :: n in old(nodes)
      ensures allocs == old(allocs)
    {
      var index, current := SearchForDeletion(record);
      if index == -1 { return -1; }
      Unlink(index, current);
      rc := 0;
    }

    /** `routing_table_free`: every record is freed once, then the list itself. */
    method FreeAll()
      requires Valid()
      modifies this
      ensures nodes == [] && live == {} && frees == allocs == old(allocs)
    {
      var i := 0;
      while i < |nodes|
        invariant i <= |nodes| && nodes == old(nodes)
        invariant live == (set r | r in nodes[i..])
        invariant allocs == old(allocs) && allocs - frees == |nodes| - i
      {
        Free(nodes[i]);
        i := i + 1;
      }
      nodes := [];
    }
  }
}
