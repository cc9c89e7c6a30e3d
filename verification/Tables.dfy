/** The routing table as an ordered list of records, and as a map from subnets. */
module Tables {
  import opened Addresses
  import opened CText
  import opened Records
  import opened Wrappers

  type Table = seq<Record>

  // ---------------------------------------------------------------- what the list loops compute

  /** Position of the first record with key `k`, or `|t|`. */
  function FindKey(t: Table, k: Key): (i: nat)
    ensures i <= |t|
    ensures forall j | 0 <= j < i :: t[j].Key() != k
    ensures i < |t| ==> t[i].Key() == k
  {
    if t == [] || t[0].Key() == k then 0 else 1 + FindKey(t[1..], k)
  }

  predicate HasKey(t: Table, k: Key) { FindKey(t, k) < |t| }

  /** The bytes of a record that survive the field-wise `strncpy`. */
  function Stored(r: Record): Record {
    Record(Prefix(r.destination, IP_ADDR_LEN), r.mask, Prefix(r.gateway, IP_ADDR_LEN), Prefix(r.oif, OIF_LEN))
  }

  function Inserted(t: Table, r: Record): Table { t + [Stored(r)] }

  /** Overwrites the first record with the key of `r`; no such record, no change. */
  function Updated(t: Table, r: Record): Table {
    var i := FindKey(t, r.Key());
    if i == |t| then t
    else t[i := t[i].(gateway := Prefix(r.gateway, IP_ADDR_LEN), oif := Prefix(r.oif, OIF_LEN))]
  }

  function RemovedAt(t: Table, i: nat): Table
    requires i < |t|
  { t[..i] + t[i + 1..] }

  /** The search index is left on the last record when no record matches, and that record goes. */
  function Deleted(t: Table, k: Key): Table {
    if t == [] then t
    else if HasKey(t, k) then RemovedAt(t, FindKey(t, k))
    else RemovedAt(t, |t| - 1)
  }

  /** `synchronize_with_server` on a table. */
  function Applied(t: Table, m: SyncMsg): Table {
    match m.opCode
    case Create => Inserted(t, m.body)
    case Update => Updated(t, m.body)
    case Delete => Deleted(t, m.body.Key())
  }

  function Replayed(t: Table, ms: seq<SyncMsg>): Table {
    if ms == [] then t else Applied(Replayed(t, ms[..|ms| - 1]), ms[|ms| - 1])
  }

  lemma ReplayedNext(t: Table, ms: seq<SyncMsg>, n: nat)
    requires n < |ms|
    ensures Replayed(t, ms[..n + 1]) == Applied(Replayed(t, ms[..n]), ms[n])
  {
    assert ms[..n + 1][..n] == ms[..n];
  }

  lemma {:induction false} ReplayedConcat(t: Table, ms: seq<SyncMsg>, ns: seq<SyncMsg>)
    ensures Replayed(t, ms + ns) == Replayed(Replayed(t, ms), ns)
  {
    if ns == [] {
      assert ms + ns == ms;
    } else {
      assert (ms + ns)[..|ms + ns| - 1] == ms + ns[..|ns| - 1];
      ReplayedConcat(t, ms, ns[..|ns| - 1]);
    }
  }

  // ---------------------------------------------------------------- the map behind the list

  ghost predicate UniqueKeys(t: Table) {
    forall i, j :: 0 <= i < j < |t| ==> t[i].Key() != t[j].Key()
  }

  /** A record within its field widths, with its NULs: copying it field by field changes nothing. */
  predicate Fits(r: Record) { |r.destination| < IP_ADDR_LEN && |r.gateway| < IP_ADDR_LEN && |r.oif| < OIF_LEN }

  datatype Route = Route(gateway: string, oif: string)

  function RouteOf(r: Record): Route { Route(r.gateway, r.oif) }

  function Lookup(t: Table, k: Key): Option<Route> {
    var i := FindKey(t, k);
    if i == |t| then None else Some(RouteOf(t[i]))
  }

  function Entry(m: map<Key, Route>, k: Key): Option<Route> { if k in m then Some(m[k]) else None }

  /** The map the list stands for: the first record with a key is the one that counts. */
  function AsMap(t: Table): (m: map<Key, Route>)
    ensures forall k :: Entry(m, k) == Lookup(t, k)
  {
    if t == [] then map[]
    else
      var rest, head := AsMap(t[1..]), t[0].Key();
      assert forall k :: Lookup(t, k) == if k == head then Some(RouteOf(t[0])) else Entry(rest, k);
      rest[head := RouteOf(t[0])]
  }

  lemma SameEntries(m: map<Key, Route>, n: map<Key, Route>)
    requires forall k :: Entry(m, k) == Entry(n, k)
    ensures m == n
  {
    forall k ensures k in m <==> k in n { assert Entry(m, k) == Entry(n, k); }
    forall k | k in m ensures m[k] == n[k] { assert Entry(m, k) == Entry(n, k); }
  }

  function Keys(t: Table): (ks: seq<Key>)
    ensures |ks| == |t| && forall i | 0 <= i < |t| :: ks[i] == t[i].Key()
  { seq(|t|, i requires 0 <= i < |t| => t[i].Key()) }

  lemma FindKeyAt(t: Table, i: nat)
    requires UniqueKeys(t) && i < |t|
    ensures FindKey(t, t[i].Key()) == i
  {}

  lemma FindKeyUnique(t: Table, k: Key, i: nat)
    requires i <= |t| && (forall j | 0 <= j < i :: t[j].Key() != k) && (i < |t| ==> t[i].Key() == k)
    ensures FindKey(t, k) == i
  {}

  lemma {:induction false} LookupInserted(t: Table, r: Record, k: Key)
    requires !HasKey(t, r.Key()) && Stored(r) == r
    ensures Lookup(Inserted(t, r), k) == if k == r.Key() then Some(RouteOf(r)) else Lookup(t, k)
  {
    FindKeyUnique(Inserted(t, r), k, if HasKey(t, k) then FindKey(t, k) else if k == r.Key() then |t| else |t| + 1);
  }

  /** Insertion of an absent key: map extension, at the end of the order. */
  lemma {:induction false} InsertRefinesMap(t: Table, r: Record)
    requires UniqueKeys(t) && !HasKey(t, r.Key()) && Fits(r)
    ensures UniqueKeys(Inserted(t, r))
    ensures AsMap(Inserted(t, r)) == AsMap(t)[r.Key() := RouteOf(r)]
    ensures Keys(Inserted(t, r)) == Keys(t) + [r.Key()]
  {
    var m := AsMap(t)[r.Key() := RouteOf(r)];
    forall k ensures Entry(AsMap(Inserted(t, r)), k) == Entry(m, k) {
      LookupInserted(t, r, k);
      assert Entry(AsMap(t), k) == Lookup(t, k);
    }
    SameEntries(AsMap(Inserted(t, r)), m);
  }

  lemma {:induction false} LookupUpdated(t: Table, r: Record, k: Key)
    requires HasKey(t, r.Key()) && Fits(r)
    ensures Lookup(Updated(t, r), k) == if k == r.Key() then Some(RouteOf(r)) else Lookup(t, k)
  {
    FindKeyUnique(Updated(t, r), k, FindKey(t, k));
  }

  /** Update of a present key: map overwrite, same keys in the same order. */
  lemma {:induction false} UpdateRefinesMap(t: Table, r: Record)
    requires UniqueKeys(t) && HasKey(t, r.Key()) && Fits(r)
    ensures UniqueKeys(Updated(t, r))
    ensures AsMap(Updated(t, r)) == AsMap(t)[r.Key() := RouteOf(r)]
    ensures Keys(Updated(t, r)) == Keys(t)
  {
    var m := AsMap(t)[r.Key() := RouteOf(r)];
    forall k ensures Entry(AsMap(Updated(t, r)), k) == Entry(m, k) {
      LookupUpdated(t, r, k);
      assert Entry(AsMap(t), k) == Lookup(t, k);
    }
    SameEntries(AsMap(Updated(t, r)), m);
  }

  lemma {:induction false} LookupRemoved(t: Table, i: nat, k: Key)
    requires UniqueKeys(t) && i < |t|
    ensures Lookup(RemovedAt(t, i), k) == if k == t[i].Key() then None else Lookup(t, k)
  {
    var j := FindKey(t, k);
    FindKeyAt(t, i);
    FindKeyUnique(RemovedAt(t, i), k, if j == i then |t| - 1 else if j < i then j else j - 1);
  }

  lemma {:induction false} RemoveRefinesMap(t: Table, i: nat)
    requires UniqueKeys(t) && i < |t|
    ensures UniqueKeys(RemovedAt(t, i))
    ensures AsMap(RemovedAt(t, i)) == AsMap(t) - {t[i].Key()}
    ensures Keys(RemovedAt(t, i)) == Keys(t)[..i] + Keys(t)[i + 1..]
  {
    var m := AsMap(t) - {t[i].Key()};
    forall k ensures Entry(AsMap(RemovedAt(t, i)), k) == Entry(m, k) {
      LookupRemoved(t, i, k);
      assert Entry(AsMap(t), k) == Lookup(t, k);
    }
    SameEntries(AsMap(RemovedAt(t, i)), m);
  }

  /** Deletion of a present key: map removal, the other keys keep their order. */
  lemma {:induction false} DeleteRefinesMap(t: Table, k: Key)
    requires UniqueKeys(t) && HasKey(t, k)
    ensures UniqueKeys(Deleted(t, k))
    ensures AsMap(Deleted(t, k)) == AsMap(t) - {k}
    ensures var i := FindKey(t, k); Keys(Deleted(t, k)) == Keys(t)[..i] + Keys(t)[i + 1..]
  {
    RemoveRefinesMap(t, FindKey(t, k));
  }

  // The records after each operation.

  lemma InsertedContents(t: Table, r: Record, q: Record)
    requires !HasKey(t, r.Key()) && Fits(r)
    ensures q in Inserted(t, r) <==> (q in t && q.Key() != r.Key()) || q == r
  {
    if q in t {
      var i :| 0 <= i < |t| && t[i] == q;
      assert t[i].Key() != r.Key();
    }
  }

  lemma {:induction false} UpdatedContents(t: Table, r: Record, q: Record)
    requires UniqueKeys(t) && HasKey(t, r.Key()) && Fits(r)
    ensures q in Updated(t, r) <==> (q in t && q.Key() != r.Key()) || q == r
  {
    var i, t' := FindKey(t, r.Key()), Updated(t, r);
    assert t'[i] == r;
    if q in t && q.Key() != r.Key() {
      var j :| 0 <= j < |t| && t[j] == q;
      assert t'[j] == q;
    }
    if q in t' && q != r {
      var j :| 0 <= j < |t'| && t'[j] == q;
      assert j != i && t[j] == q;
    }
  }

  lemma {:induction false} DeletedContents(t: Table, k: Key, q: Record)
    requires UniqueKeys(t) && HasKey(t, k)
    ensures q in Deleted(t, k) <==> q in t && q.Key() != k
  {
    var i, t' := FindKey(t, k), Deleted(t, k);
    if q in t && q.Key() != k {
      var j :| 0 <= j < |t| && t[j] == q;
      assert t'[if j < i then j else j - 1] == q;
    }
    if q in t' {
      var j :| 0 <= j < |t'| && t'[j] == q;
      assert t[if j < i then j else j + 1] == q;
    }
  }

  /** "Only existing records may be deleted" fails on a miss; it holds exactly when the key is there or the
      table is empty. */
  lemma {:induction false} DeleteOnlyExistingIff(t: Table, k: Key)
    requires UniqueKeys(t)
    ensures AsMap(Deleted(t, k)) == AsMap(t) - {k} <==> HasKey(t, k) || t == []
  {
    if HasKey(t, k) {
      DeleteRefinesMap(t, k);
    } else if t != [] {
      var last := t[|t| - 1].Key();
      RemoveRefinesMap(t, |t| - 1);
      FindKeyAt(t, |t| - 1);
      assert Entry(AsMap(t), last) == Lookup(t, last);
    }
  }

  /** A miss that costs a record. */
  lemma DeleteMissExample(r: Record, k: Key)
    requires r.Key() != k
    ensures !HasKey([r], k) && Deleted([r], k) == []
  {}
}
