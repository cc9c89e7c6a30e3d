/** The IPv4 and subnet readers of input.c. */
module Addresses {
  import opened CText
  import Seqs

  const MASK_MIN := 0
  const MASK_MAX := 32
  const IP_ADDR_LEN := 16
  const IP_ADDR_GP := 4
  const IP_ADDR_MIN := 0
  const IP_ADDR_MAX := 255

  type u16 = x: int | 0 <= x < 0x1_0000

  /** A text that is read as an integer between `lo` and `hi`. */
  predicate IntBetween(t: string, lo: int, hi: int) {
    match ParseInt(t)
    case None => false
    case Some(v) => lo <= v <= hi
  }

  predicate IsGroup(t: string) { IntBetween(t, IP_ADDR_MIN, IP_ADDR_MAX) }

  predicate AllGroups(ts: seq<string>) { forall t | t in ts :: IsGroup(t) }

  /** An address is judged by its first `IP_ADDR_LEN` characters only. */
  predicate AcceptsAddress(s: string) {
    var ts := Split(Prefix(s, IP_ADDR_LEN), '.');
    |ts| == IP_ADDR_GP && AllGroups(ts)
  }

  /** Four numerals between 0 and 255, with dots between them. */
  ghost predicate IsDottedQuad(s: string, ts: seq<string>) {
    && |ts| == 4
    && s == ts[0] + "." + ts[1] + "." + ts[2] + "." + ts[3]
    && forall t | t in ts :: exists v :: 0 <= v <= 255 && DenotesInt(t, v)
  }

  lemma NumeralCharacters(t: string)
    requires ParseInt(t).Some?
    ensures forall c | c in t :: IsSpace(c) || IsDigit(c) || c == '+' || c == '-'
  {
    var _, _, _ := ParseIntOnlyNumerals(t);
  }

  lemma IsGroupMeaning(t: string)
    ensures IsGroup(t) <==> exists v :: 0 <= v <= 255 && DenotesInt(t, v)
  {
    if IsGroup(t) { ParseIntMeaning(t, ParseInt(t).value); }
    if exists v :: 0 <= v <= 255 && DenotesInt(t, v) {
      var v :| 0 <= v <= 255 && DenotesInt(t, v);
      ParseIntMeaning(t, v);
    }
  }

  lemma JoinFour(ts: seq<string>)
    requires |ts| == 4
    ensures Join(ts, '.') == ts[0] + "." + ts[1] + "." + ts[2] + "." + ts[3]
  {
    var t1 := ts[1..];
    var t2 := t1[1..];
    assert t2[1..][0] == ts[3];
    assert Join(t2, '.') == ts[2] + "." + ts[3];
    assert Join(t1, '.') == ts[1] + "." + Join(t2, '.');
  }

  lemma QuadSplit(p: string, ts: seq<string>)
    requires IsDottedQuad(p, ts)
    ensures Split(p, '.') == ts && AllGroups(ts)
  {
    forall t | t in ts ensures IsGroup(t) && '.' !in t {
      IsGroupMeaning(t);
      NumeralCharacters(t);
    }
    JoinFour(ts);
    JoinSplit(ts, '.');
  }

  /** What the address reader accepts, said without the reader: a dotted quad of numerals. */
  lemma AcceptsAddressMeaning(s: string)
    ensures AcceptsAddress(s) <==> exists ts :: IsDottedQuad(Prefix(s, IP_ADDR_LEN), ts)
  {
    var p := Prefix(s, IP_ADDR_LEN);
    if AcceptsAddress(s) {
      var ts := Split(p, '.');
      SplitJoin(p, '.');
      JoinFour(ts);
      forall t | t in ts ensures exists v :: 0 <= v <= 255 && DenotesInt(t, v) { IsGroupMeaning(t); }
      assert IsDottedQuad(p, ts);
    }
    if exists ts :: IsDottedQuad(p, ts) {
      var ts :| IsDottedQuad(p, ts);
      QuadSplit(p, ts);
    }
  }

  lemma OneMoreGroup(ts: seq<string>, n: nat)
    requires n < |ts| && AllGroups(ts[..n]) && IsGroup(ts[n])
    ensures AllGroups(ts[..n + 1])
  {
    assert ts[..n + 1] == ts[..n] + [ts[n]];
  }

  /** The body of the reader's loop: one more token, which must be a group. */
  method ReadGroup(buffer: array<char>, at: nat) returns (ok: bool, next: int)
    requires Terminated(buffer[..], at)
    modifies buffer
    ensures var ts := Split(TextAt(old(buffer[..]), at), '.');
            && ok == IsGroup(ts[0])
            && (next == -1 <==> |ts| == 1)
            && (next != -1 ==> Terminated(buffer[..], next) && Split(TextAt(buffer[..], next), '.') == ts[1..])
  {
    var token: string;
    token, next := NextToken(buffer, at, '.');
    var group: int := *;
    var rc: int;
    rc, group := ReadIntFromBuffer(token, group);
    ok := rc != -1 && IP_ADDR_MIN <= group <= IP_ADDR_MAX;
  }

  /** `read_ip_address_from_buffer`. The caller's buffer is not in the frame: only a copy is cut up. */
  method ReadIpAddressFromBuffer(ipAddress: array<char>) returns (rc: int)
    requires NUL in ipAddress[..]
    ensures rc == 0 <==> AcceptsAddress(Text(ipAddress[..]))
    ensures rc == 0 || rc == -1
  {
    var s := Text(ipAddress[..]);
    ghost var ts := Split(Prefix(s, IP_ADDR_LEN), '.');
    if Seqs.IndexOf(s, '.') == |s| {
      Seqs.IndexOfUnique(Prefix(s, IP_ADDR_LEN), '.', |Prefix(s, IP_ADDR_LEN)|);
      return -1;
    }
    var buffer := StrNDup(s, IP_ADDR_LEN);
    assert buffer[..][0..] == buffer[..];
    var next, gpCount := 0, 0;
    while next != -1
      invariant 0 <= gpCount <= |ts| && (next != -1 ==> gpCount < |ts|)
      invariant AllGroups(ts[..gpCount])
      invariant next == -1 ==> gpCount == |ts|
      invariant next != -1 ==> Terminated(buffer[..], next)
      invariant next != -1 ==> Split(TextAt(buffer[..], next), '.') == ts[gpCount..]
      decreases |ts| - gpCount
    {
      Seqs.DropNext(ts, gpCount);
      var ok: bool;
      ok, next := ReadGroup(buffer, next);
      if !ok {
        assert ts[gpCount] in ts;
        return -1;
      }
      OneMoreGroup(ts, gpCount);
      gpCount := gpCount + 1;
    }
    assert ts[..|ts|] == ts;
    rc := if gpCount == IP_ADDR_GP then 0 else -1;
  }
}
