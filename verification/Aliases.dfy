/** Which subnet a key stands for. Records are told apart by the text of their address, so the duplicate check of the
    create prompt is a check for subnets only where every subnet is written in one way. */
module Aliases {
  import opened Addresses
  import opened CText
  import opened Consoles
  import opened Decimals
  import opened Networks
  import opened Records
  import Sessions
  import opened Subnets
  import opened Tables
  import opened Wrappers

  // ---------------------------------------------------------------- the subnet of a key

  function Octet(t: string): (v: int)
    requires IsGroup(t)
    ensures IP_ADDR_MIN <= v <= IP_ADDR_MAX && ParseInt(t) == Some(v)
  { ParseInt(t).value }

  function GroupValues(ts: seq<string>): (o: seq<int>)
    requires |ts| == IP_ADDR_GP && AllGroups(ts)
    ensures IsOctets(o)
  {
    assert ts[0] in ts && ts[1] in ts && ts[2] in ts && ts[3] in ts;
    [Octet(ts[0]), Octet(ts[1]), Octet(ts[2]), Octet(ts[3])]
  }

  /** The four numbers of an accepted address. */
  function Octets(a: string): (o: seq<int>)
    requires AcceptsAddress(a)
    ensures IsOctets(o)
  { GroupValues(Split(Prefix(a, IP_ADDR_LEN), '.')) }

  /** The network a key stands for. */
  function NetworkOf(k: Key): (n: Network)
    requires ValidKey(k)
    ensures n.address < 0x1_0000_0000 && n.mask == k.mask
  { Network(Quadword(Octets(k.destination)), k.mask) }

  /** Two keys stand for one subnet when it covers the same addresses. */
  ghost predicate SameSubnet(k: Key, l: Key)
    requires ValidKey(k) && ValidKey(l)
  { SameAddresses(NetworkOf(k), NetworkOf(l)) }

  // ---------------------------------------------------------------- one way of writing each subnet

  /** Every group is written without sign, space or leading zero. */
  predicate CanonicalAddress(a: string) {
    |a| < IP_ADDR_LEN && AcceptsAddress(a) && forall t | t in Split(a, '.') :: Canonical(t)
  }

  /** A subnet as it should be written: canonical address, no bit set outside the mask. */
  predicate NormalKey(k: Key) {
    match k
    case SubnetKey(destination, _) => ValidKey(k) && CanonicalAddress(destination) && Normal(NetworkOf(k))
  }

  lemma CanonicalGroup(t: string)
    requires Canonical(t) && ParseInt(t).Some?
    ensures ParseInt(t).value == DecValue(t) && t == Decimal(DecValue(t))
  {
    assert t == "" + "" + t;
    ParseIntNumeral(t, "", "", t);
    CanonicalUnique(t);
  }

  /** Four groups with these numbers. */
  predicate AreGroups(ts: seq<string>, o: seq<int>) {
    |ts| == |o| == 4 && forall i | 0 <= i < 4 :: ParseInt(ts[i]) == Some(o[i])
  }

  lemma CanonicalGroups(ts: seq<string>, us: seq<string>, o: seq<int>)
    requires AreGroups(ts, o) && AreGroups(us, o)
    requires forall i | 0 <= i < 4 :: Canonical(ts[i]) && Canonical(us[i])
    ensures ts == us
  {
    forall i | 0 <= i < 4 ensures ts[i] == us[i] {
      assert ParseInt(ts[i]) == Some(o[i]) && ParseInt(us[i]) == Some(o[i]);
      CanonicalGroup(ts[i]);
      CanonicalGroup(us[i]);
    }
  }

  lemma AddressGroups(a: string)
    requires CanonicalAddress(a)
    ensures AreGroups(Split(a, '.'), Octets(a)) && Join(Split(a, '.'), '.') == a
    ensures forall i | 0 <= i < 4 :: Canonical(Split(a, '.')[i])
  {
    SplitJoin(a, '.');
  }

  /** Canonical addresses with the same octets are the same text. */
  lemma CanonicalSameText(a: string, b: string)
    requires CanonicalAddress(a) && CanonicalAddress(b) && Octets(a) == Octets(b)
    ensures a == b
  {
    AddressGroups(a);
    AddressGroups(b);
    CanonicalGroups(Split(a, '.'), Split(b, '.'), Octets(a));
  }

  /** A subnet has one normal key at most. */
  lemma NormalKeyUnique(k: Key, l: Key)
    requires NormalKey(k) && NormalKey(l)
    ensures SameSubnet(k, l) <==> k == l
  {
    if SameSubnet(k, l) {
      NormalUnique(NetworkOf(k), NetworkOf(l));
      QuadwordUnique(Octets(k.destination), Octets(l.destination));
      CanonicalSameText(k.destination, l.destination);
    }
  }

  lemma GroupsSplit(ts: seq<string>, o: seq<int>)
    requires AreGroups(ts, o)
    ensures Split(Join(ts, '.'), '.') == ts
  {
    forall t | t in ts ensures '.' !in t { NumeralCharacters(t); }
    JoinSplit(ts, '.');
  }

  lemma GroupsAccepted(ts: seq<string>, o: seq<int>)
    requires AreGroups(ts, o) && IsOctets(o)
    ensures AllGroups(ts)
  {
    forall i | 0 <= i < 4 ensures IsGroup(ts[i]) { assert ParseInt(ts[i]) == Some(o[i]); }
  }

  lemma GroupValuesAre(ts: seq<string>, o: seq<int>)
    requires AreGroups(ts, o) && IsOctets(o)
    ensures AllGroups(ts) && GroupValues(ts) == o
  {
    GroupsAccepted(ts, o);
  }

  /** Joined by dots they are an address with these numbers. */
  lemma FourGroups(ts: seq<string>, o: seq<int>)
    requires AreGroups(ts, o) && IsOctets(o) && |Join(ts, '.')| <= IP_ADDR_LEN
    ensures AcceptsAddress(Join(ts, '.')) && Octets(Join(ts, '.')) == o
  {
    GroupsSplit(ts, o);
    GroupValuesAre(ts, o);
  }

  lemma OctetLength(v: nat)
    requires v <= IP_ADDR_MAX
    ensures |Decimal(v)| <= 3
  {
    if v >= 100 {
      assert Decimal(v) == Decimal(v / 10) + [DigitChar(v % 10)];
      assert Decimal(v / 10) == Decimal(v / 10 / 10) + [DigitChar(v / 10 % 10)];
    } else if v >= 10 {
      assert Decimal(v) == Decimal(v / 10) + [DigitChar(v % 10)];
    }
  }

  lemma OctetText(v: nat)
    requires v <= IP_ADDR_MAX
    ensures ParseInt(Decimal(v)) == Some(v) && |Decimal(v)| <= 3 && Canonical(Decimal(v))
  {
    SignedDecimalReadBack(v);
    DecValueDecimal(v);
    OctetLength(v);
  }

  function OctetTexts(o: seq<int>): (ts: seq<string>)
    requires IsOctets(o)
    ensures |ts| == 4 && forall i | 0 <= i < 4 :: ts[i] == Decimal(o[i])
  { [Decimal(o[0]), Decimal(o[1]), Decimal(o[2]), Decimal(o[3])] }

  lemma OctetTextsAre(o: seq<int>)
    requires IsOctets(o)
    ensures AreGroups(OctetTexts(o), o)
    ensures forall i | 0 <= i < 4 :: |OctetTexts(o)[i]| <= 3 && Canonical(OctetTexts(o)[i])
  {
    forall i | 0 <= i < 4
      ensures ParseInt(Decimal(o[i])) == Some(o[i]) && |Decimal(o[i])| <= 3 && Canonical(Decimal(o[i]))
    {
      OctetText(o[i]);
    }
  }

  /** The canonical text of an address. */
  function AddressText(o: seq<int>): string
    requires IsOctets(o)
  { Join(OctetTexts(o), '.') }

  lemma JoinedSize(ts: seq<string>)
    requires |ts| == 4 && forall i | 0 <= i < 4 :: |ts[i]| <= 3 && OneLine(ts[i])
    ensures |Join(ts, '.')| < IP_ADDR_LEN && OneLine(Join(ts, '.'))
  {
    JoinFour(ts);
  }

  lemma AddressTextSize(o: seq<int>)
    requires IsOctets(o)
    ensures |AddressText(o)| < IP_ADDR_LEN && OneLine(AddressText(o))
  {
    OctetTextsAre(o);
    JoinedSize(OctetTexts(o));
  }

  lemma AddressTextReads(o: seq<int>)
    requires IsOctets(o)
    ensures CanonicalAddress(AddressText(o)) && Octets(AddressText(o)) == o
  {
    OctetTextsAre(o);
    AddressTextSize(o);
    GroupsSplit(OctetTexts(o), o);
    FourGroups(OctetTexts(o), o);
  }

  /** The subnet of a key, written as it should be. */
  function NormalForm(k: Key): Key
    requires ValidKey(k)
  { SubnetKey(AddressText(OctetsOf(Normalized(NetworkOf(k)).address)), k.mask) }

  lemma NormalFormNetwork(k: Key)
    requires ValidKey(k)
    ensures ValidKey(NormalForm(k)) && CanonicalAddress(NormalForm(k).destination)
    ensures NetworkOf(NormalForm(k)) == Normalized(NetworkOf(k))
  {
    var start := Normalized(NetworkOf(k)).address;
    AddressTextReads(OctetsOf(start));
    AddressTextSize(OctetsOf(start));
    QuadwordOfOctets(start);
  }

  lemma NormalFormIsNormal(k: Key)
    requires ValidKey(k)
    ensures NormalKey(NormalForm(k)) && SameSubnet(NormalForm(k), k)
  {
    NormalFormNetwork(k);
    NormalizedIs(NetworkOf(k));
  }

  // ---------------------------------------------------------------- the duplicate check

  ghost predicate NormalTable(t: Table) { ValidTable(t) && forall i | 0 <= i < |t| :: NormalKey(t[i].Key()) }

  /** Some record has the subnet of `k`. */
  ghost predicate Denoted(t: Table, k: Key)
    requires ValidTable(t) && ValidKey(k)
  { exists i :: 0 <= i < |t| && SameSubnet(t[i].Key(), k) }

  /** The prompt of a create session does not go on after this line. */
  predicate Refused(t: Table, c: Console, line: string) { HandleLine(t, c, line).console.entry.Subnet? }

  /** On every table of normal keys, the typed key is refused exactly when its subnet is in the table. */
  ghost predicate CheckedExactly(c: Console, k: Key)
    requires ValidKey(k)
  { forall t | NormalTable(t) :: Refused(t, c, PrintSubnet(k)) <==> Denoted(t, k) }

  lemma RefusedIff(t: Table, c: Console, k: Key)
    requires ValidKey(k) && c.mode.Creating? && c.entry.Subnet?
    ensures Refused(t, c, PrintSubnet(k)) <==> exists i :: 0 <= i < |t| && t[i].Key() == k
  {
    Sessions.PrintedSubnetTyped(t, c, k);
    if i :| 0 <= i < |t| && t[i].Key() == k { assert FindKey(t, k) <= i; }
  }

  lemma NormalKeyChecked(t: Table, c: Console, k: Key)
    requires NormalTable(t) && NormalKey(k) && c.mode.Creating? && c.entry.Subnet?
    ensures Refused(t, c, PrintSubnet(k)) <==> Denoted(t, k)
  {
    RefusedIff(t, c, k);
    forall i | 0 <= i < |t| ensures SameSubnet(t[i].Key(), k) <==> t[i].Key() == k { NormalKeyUnique(t[i].Key(), k); }
  }

  /** A table with one record, which has the normal form of `k`. */
  function NormalRecord(k: Key): Record
    requires ValidKey(k)
  { Record(NormalForm(k).destination, k.mask, NormalForm(k).destination, "") }

  lemma NormalRecordTable(k: Key)
    requires ValidKey(k)
    ensures NormalTable([NormalRecord(k)]) && Denoted([NormalRecord(k)], k)
  {
    var t := [NormalRecord(k)];
    NormalFormIsNormal(k);
    assert t[0].Key() == NormalForm(k) && ValidRecord(t[0]);
    assert SameSubnet(t[0].Key(), k);
  }

  /** A key that is not normal is let in although its subnet is there. */
  lemma AliasNotRefused(c: Console, k: Key)
    requires ValidKey(k) && !NormalKey(k) && c.mode.Creating? && c.entry.Subnet?
    ensures NormalTable([NormalRecord(k)]) && Denoted([NormalRecord(k)], k)
    ensures !Refused([NormalRecord(k)], c, PrintSubnet(k))
  {
    NormalRecordTable(k);
    NormalFormIsNormal(k);
    assert [NormalRecord(k)][0].Key() == NormalForm(k);
    RefusedIff([NormalRecord(k)], c, k);
  }

  /** "A record that already exists cannot be added": of subnets this holds for a typed key, on all tables of normal
      keys, if and only if the typed key is normal itself. */
  lemma DuplicateCheckIff(c: Console, k: Key)
    requires ValidKey(k) && c.mode.Creating? && c.entry.Subnet?
    ensures CheckedExactly(c, k) <==> NormalKey(k)
  {
    if NormalKey(k) {
      forall t | NormalTable(t) ensures Refused(t, c, PrintSubnet(k)) <==> Denoted(t, k) { NormalKeyChecked(t, c, k); }
    } else {
      AliasNotRefused(c, k);
    }
  }

  // ---------------------------------------------------------------- two examples

  lemma PaddedOne()
    ensures ParseInt("01") == Some(1)
  {
    var ds := Decimal(0) + [DigitChar(1)];
    DecValueDecimal(0);
    DecValueSnoc(Decimal(0), DigitChar(1));
    assert ds == "01" && ds == "" + "" + ds;
    ParseIntNumeral(ds, "", "", ds);
  }

  lemma OtherKeyPasses(c: Console, r: Record, k: Key)
    requires c.mode.Creating? && c.entry.Subnet? && ValidKey(k) && r.Key() != k
    ensures !Refused([r], c, PrintSubnet(k))
  {
    RefusedIff([r], c, k);
  }

  lemma QuadOctets(t: string, v: nat)
    requires ParseInt(t) == Some(v) && v <= IP_ADDR_MAX && |t| <= 3
    ensures AcceptsAddress(Quad(t)) && Octets(Quad(t)) == [v, v, v, v]
  {
    JoinFour([t, t, t, t]);
    FourGroups([t, t, t, t], [v, v, v, v]);
  }

  lemma QuadKey(t: string, v: nat, mask: Mask)
    requires ParseInt(t) == Some(v) && v <= IP_ADDR_MAX && |t| <= 3 && OneLine(t)
    ensures var k := SubnetKey(Quad(t), mask); ValidKey(k) && NetworkOf(k) == Network(0x101_0101 * v, mask)
  {
    QuadText(t);
    QuadOctets(t, v);
  }

  /** Beside 1.1.1.1/32 the prompt lets in 01.01.01.01/32. */
  lemma SpellingExample(c: Console, r: Record)
    requires c.mode.Creating? && c.entry.Subnet? && r.Key() == SubnetKey(Quad("1"), 32)
    ensures var k := SubnetKey(Quad("01"), 32);
            ValidKey(k) && ValidKey(r.Key()) && SameSubnet(r.Key(), k) && !Refused([r], c, PrintSubnet(k))
  {
    SignedDecimalReadBack(1);
    PaddedOne();
    QuadKey("1", 1, 32);
    QuadKey("01", 1, 32);
    assert |Quad("1")| != |Quad("01")|;
    OtherKeyPasses(c, r, SubnetKey(Quad("01"), 32));
  }

  lemma ZeroAndOne()
    ensures var k, l := SubnetKey(Quad("0"), 0), SubnetKey(Quad("1"), 0);
            && ValidKey(k) && NetworkOf(k) == Network(0, 0)
            && ValidKey(l) && NetworkOf(l) == Network(0x101_0101, 0)
            && k != l
  {
    SignedDecimalReadBack(0);
    SignedDecimalReadBack(1);
    QuadKey("0", 0, 0);
    QuadKey("1", 1, 0);
    assert Quad("0")[0] != Quad("1")[0];
  }

  /** Beside 0.0.0.0/0 it lets in 1.1.1.1/0. */
  lemma HostBitsExample(c: Console, r: Record)
    requires c.mode.Creating? && c.entry.Subnet? && r.Key() == SubnetKey(Quad("0"), 0)
    ensures var k := SubnetKey(Quad("1"), 0);
            ValidKey(k) && ValidKey(r.Key()) && SameSubnet(r.Key(), k) && !Refused([r], c, PrintSubnet(k))
  {
    ZeroAndOne();
    WholeRange(0x101_0101);
    OtherKeyPasses(c, r, SubnetKey(Quad("1"), 0));
  }
}
