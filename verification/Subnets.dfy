/** The destination subnet reader of input.c and the subnet printer of rtm.c. */
module Subnets {
  import opened Addresses
  import opened CText
  import opened Decimals
  import opened Records
  import Seqs
  import opened Wrappers

  /** Verdict of the reader and the two fields it may have written, whatever the verdict. */
  datatype SubnetRead = SubnetRead(ok: bool, destination: string, mask: u16)

  predicate IsMask(t: string) { IntBetween(t, MASK_MIN, MASK_MAX) }

  /** `destination` and `mask` are the values of the fields before the call. A refused line still
      overwrites the destination once its first piece is an address, and the mask once its second is a mask. */
  function ReadSubnet(line: string, destination: string, mask: u16): (r: SubnetRead)
  {
    var ts := Split(line, '/');
    if |ts| == 1 || !AcceptsAddress(ts[0]) then SubnetRead(false, destination, mask)
    else if !IsMask(ts[1]) then SubnetRead(false, ts[0], mask)
    else SubnetRead(|ts| == 2, ts[0], ParseInt(ts[1]).value)
  }

  /** The local buffer of the reader holds the address part with its NUL. */
  predicate AddressPartFits(line: string) { Seqs.IndexOf(line, '/') < |line| ==> Seqs.IndexOf(line, '/') < IP_ADDR_LEN }

  /** First piece of a subnet: the address. */
  method StoreAddress(token: string, record: MsgBody) returns (rc: int)
    requires NUL !in token && |token| < IP_ADDR_LEN
    modifies record`destination
    ensures rc == if AcceptsAddress(token) then 0 else -1
    ensures record.destination == if AcceptsAddress(token) then token else old(record.destination)
  {
    var buffer := new char[IP_ADDR_LEN];
    StrNCpy(buffer, token, IP_ADDR_LEN);
    assert buffer[|token|] == NUL;
    rc := ReadIpAddressFromBuffer(buffer);
    if rc == -1 { return; }
    record.destination := Prefix(token, IP_ADDR_LEN);
  }

  /** Second piece of a subnet: the mask. */
  method StoreMask(token: string, record: MsgBody) returns (rc: int)
    modifies record`mask
    ensures rc == if IsMask(token) then 0 else -1
    ensures record.mask == if IsMask(token) then ParseInt(token).value else old(record.mask)
  {
    var mask: int := *;
    rc, mask := ReadIntFromBuffer(token, mask);
    if rc == -1 || mask < MASK_MIN || mask > MASK_MAX { return -1; }
    record.mask := mask;
  }

  /** The two cases of the reader's loop. */
  method StorePiece(token: string, count: int, record: MsgBody) returns (rc: int)
    requires count == 1 ==> NUL !in token && |token| < IP_ADDR_LEN
    modifies record`destination, record`mask
    ensures rc == 0 || rc == -1
    ensures rc == 0 <==> if count == 1 then AcceptsAddress(token) else IsMask(token)
    ensures record.destination == if count == 1 && rc == 0 then token else old(record.destination)
    ensures record.mask == if count != 1 && rc == 0 then ParseInt(token).value else old(record.mask)
  {
    if count == 1 {
      rc := StoreAddress(token, record);
    } else {
      rc := StoreMask(token, record);
    }
  }

  /** `read_destination_subnet_from_buffer(dst_subnet, record->destination, &record->mask)`. */
  method ReadDestinationSubnetFromBuffer(dstSubnet: array<char>, record: MsgBody) returns (rc: int)
    requires NUL in dstSubnet[..] && AddressPartFits(Text(dstSubnet[..]))
    modifies dstSubnet, record`destination, record`mask
    ensures rc == 0 || rc == -1
    ensures SubnetRead(rc == 0, record.destination, record.mask)
         == ReadSubnet(Text(old(dstSubnet[..])), old(record.destination), old(record.mask))
  {
    ghost var line := Text(dstSubnet[..]);
    ghost var ts := Split(line, '/');
    SplitHead(line, '/');
    if Seqs.IndexOf(Text(dstSubnet[..]), '/') == |Text(dstSubnet[..])| { return -1; }
    assert dstSubnet[..][0..] == dstSubnet[..];
    var next, tokenCount := 0, 0;
    while next != -1
      invariant 0 <= tokenCount <= 2
      invariant next == -1 ==> tokenCount == |ts|
      invariant next != -1 ==> Terminated(dstSubnet[..], next)
      invariant next != -1 ==> tokenCount < |ts| && Split(TextAt(dstSubnet[..], next), '/') == ts[tokenCount..]
      invariant tokenCount == 0 ==> record.destination == old(record.destination)
      invariant tokenCount >= 1 ==> AcceptsAddress(ts[0]) && record.destination == ts[0]
      invariant tokenCount <= 1 ==> record.mask == old(record.mask)
      invariant tokenCount >= 2 ==> IsMask(ts[1]) && record.mask == ParseInt(ts[1]).value
      decreases 2 - tokenCount, if next == -1 then 0 else 1
    {
      var token: string;
      Seqs.DropNext(ts, tokenCount);
      token, next := NextToken(dstSubnet, next, '/');
      tokenCount := tokenCount + 1;
      if tokenCount > 2 { return -1; }
      rc := StorePiece(token, tokenCount, record);
      if rc == -1 { return; }
    }
    rc := 0;
  }

  /** A subnet text: an address without a slash, a slash, a mask. */
  ghost predicate IsSubnet(line: string, a: string, t: string) {
    && line == a + "/" + t
    && '/' !in a && AcceptsAddress(a)
    && IsMask(t)
  }

  lemma SubnetPieces(line: string, a: string, t: string)
    requires IsSubnet(line, a, t)
    ensures Split(line, '/') == [a, t]
  {
    var _, _, _ := ParseIntOnlyNumerals(t);
    var ts := [a, t];
    assert ts[1..] == [t];
    assert Join(ts, '/') == line;
    JoinSplit(ts, '/');
  }

  /** The reader says yes exactly on subnet texts, and then returns their two parts. */
  lemma ReadSubnetMeaning(line: string, destination: string, mask: u16)
    ensures var r := ReadSubnet(line, destination, mask);
            && (r.ok <==> exists a, t :: IsSubnet(line, a, t))
            && (forall a, t :: IsSubnet(line, a, t) ==> r.destination == a && Some(r.mask) == ParseInt(t))
  {
    var ts := Split(line, '/');
    if ReadSubnet(line, destination, mask).ok {
      SplitJoin(line, '/');
      assert ts[1..] == [ts[1]];
      assert line == ts[0] + "/" + ts[1];
      assert IsSubnet(line, ts[0], ts[1]);
    }
    forall a, t | IsSubnet(line, a, t)
      ensures ReadSubnet(line, destination, mask) == SubnetRead(true, a, ParseInt(t).value)
    {
      SubnetPieces(line, a, t);
    }
  }

  /** What a line leaves in the two fields, accepted or not: `a` is its text before the first slash, `t` the text from
      there to the next slash, if any. The first is stored once it is an address, the second once it is a mask too. */
  lemma ReadSubnetLeaves(line: string, a: string, t: string, rest: string, destination: string, mask: u16)
    requires line == a + "/" + t + rest && '/' !in a && '/' !in t && (rest == "" || rest[0] == '/')
    ensures var r := ReadSubnet(line, destination, mask);
            && r.destination == (if AcceptsAddress(a) then a else destination)
            && Some(r.mask) == (if AcceptsAddress(a) && IsMask(t) then ParseInt(t) else Some(mask))
            && (r.ok <==> AcceptsAddress(a) && IsMask(t) && rest == "")
  {
    assert line == a + "/" + (t + rest);
    FirstPiece(line, a, t + rest);
    SecondPiece(t, rest);
  }

  lemma SecondPiece(t: string, rest: string)
    requires '/' !in t && (rest == "" || rest[0] == '/')
    ensures var ts := Split(t + rest, '/'); ts[0] == t && (|ts| == 1 <==> rest == "")
  {
    if rest == "" {
      LastPiece(t);
      assert t + rest == t;
    } else {
      assert t + rest == t + "/" + rest[1..];
      FirstPiece(t + rest, t, rest[1..]);
    }
  }

  lemma FirstPiece(line: string, a: string, rest: string)
    requires line == a + "/" + rest && '/' !in a
    ensures var ts := Split(line, '/'); |ts| > 1 && ts[0] == a && ts[1..] == Split(rest, '/') && ts[1] == ts[1..][0]
  {
    assert line[..|a|] == a && line[|a| + 1..] == rest;
    Seqs.IndexOfUnique(line, '/', |a|);
    SplitHead(line, '/');
  }

  lemma LastPiece(t: string)
    requires '/' !in t
    ensures Split(t, '/') == [t]
  {
    assert t[..|t|] == t;
    Seqs.IndexOfUnique(t, '/', |t|);
  }

  /** A line without a slash is refused and leaves both fields alone. */
  lemma ReadSubnetWithoutSlash(line: string, destination: string, mask: u16)
    requires '/' !in line
    ensures ReadSubnet(line, destination, mask) == SubnetRead(false, destination, mask)
  {
    LastPiece(line);
  }

  /** What the scratch fields held before makes no difference to an accepted line. */
  lemma ReadSubnetForgets(line: string, d1: string, m1: u16, d2: string, m2: u16)
    ensures ReadSubnet(line, d1, m1).ok == ReadSubnet(line, d2, m2).ok
    ensures ReadSubnet(line, d1, m1).ok ==> ReadSubnet(line, d1, m1) == ReadSubnet(line, d2, m2)
  {}

  // ---------------------------------------------------------------- printing

  const SUBNET_LEN := IP_ADDR_LEN + 3

  /** The text the format "%s/%hu" stands for. */
  function FormatSubnet(k: Key): string { k.destination + "/" + Decimal(k.mask) }

  /** `snprintf(dst_subnet, IP_ADDR_LEN + 3, "%s/%hu", destination, mask)`: cut to the buffer. */
  function PrintSubnet(k: Key): string { Prefix(FormatSubnet(k), SUBNET_LEN - 1) }

  /** A key that fits a record's fields and that the reader can have produced from a line. */
  predicate ValidKey(k: Key) {
    |k.destination| < IP_ADDR_LEN && OneLine(k.destination) && AcceptsAddress(k.destination) && k.mask <= MASK_MAX
  }

  lemma AddressCharacters(a: string, c: char)
    requires AcceptsAddress(a) && |a| <= IP_ADDR_LEN && c in a
    ensures IsSpace(c) || IsDigit(c) || c == '+' || c == '-' || c == '.'
  {
    if c != '.' {
      SplitCovers(a, '.', c);
      var t :| t in Split(a, '.') && c in t;
      assert IsGroup(t);
      NumeralCharacters(t);
    }
  }

  lemma DecimalMask(m: u16)
    requires m <= MASK_MAX
    ensures ParseInt(Decimal(m)) == Some(m) && |Decimal(m)| <= 2
  {
    SignedDecimalReadBack(m);
    if m >= 10 { assert Decimal(m) == Decimal(m / 10) + [DigitChar(m % 10)]; }
  }

  lemma FormattedSubnet(k: Key)
    requires ValidKey(k)
    ensures IsSubnet(FormatSubnet(k), k.destination, Decimal(k.mask))
    ensures |FormatSubnet(k)| < SUBNET_LEN && OneLine(FormatSubnet(k))
  {
    DecimalMask(k.mask);
    forall c | c in k.destination ensures c != '/' && c != NUL { AddressCharacters(k.destination, c); }
    assert OneLine(Decimal(k.mask));
  }

  /** Printing then reading gives the key back, and the 19-byte buffer cuts nothing off. */
  lemma SubnetRoundTrip(k: Key, destination: string, mask: u16)
    requires ValidKey(k)
    ensures PrintSubnet(k) == FormatSubnet(k) && |PrintSubnet(k)| + 1 <= SUBNET_LEN
    ensures ReadSubnet(PrintSubnet(k), destination, mask) == SubnetRead(true, k.destination, k.mask)
    ensures AddressPartFits(PrintSubnet(k)) && OneLine(PrintSubnet(k))
    ensures var n := |k.destination|;
            && PrintSubnet(k)[..n + 1] == k.destination + "/"
            && Canonical(PrintSubnet(k)[n + 1..]) && DecValue(PrintSubnet(k)[n + 1..]) == k.mask
  {
    FormattedSubnet(k);
    DecValueDecimal(k.mask);
    assert FormatSubnet(k)[|k.destination| + 1..] == Decimal(k.mask);
    DecimalMask(k.mask);
    ReadSubnetMeaning(PrintSubnet(k), destination, mask);
    SubnetPieces(PrintSubnet(k), k.destination, Decimal(k.mask));
    SplitHead(PrintSubnet(k), '/');
  }

  lemma Digits255()
    ensures Decimal(255) == "255" && IsGroup("255")
  {
    DecimalSnoc(25, 5);
    DecimalSnoc(2, 5);
    SignedDecimalReadBack(255);
  }

  /** The same group four times. */
  function Quad(t: string): string { t + "." + t + "." + t + "." + t }

  lemma QuadText(t: string)
    requires OneLine(t)
    ensures |Quad(t)| == 4 * |t| + 3 && OneLine(Quad(t))
  {}

  lemma QuadAccepted(t: string)
    requires IsGroup(t) && |t| <= 3 && OneLine(t)
    ensures AcceptsAddress(Quad(t)) && |Quad(t)| == 4 * |t| + 3 && OneLine(Quad(t))
  {
    var ts := [t, t, t, t];
    NumeralCharacters(t);
    QuadText(t);
    assert Quad(t) == Join(ts, '.') by { JoinFour(ts); }
    JoinSplit(ts, '.');
  }

  /** The buffer could not be one byte shorter: the longest canonical subnet fills it. */
  lemma SubnetBoundTight()
    ensures var k := SubnetKey(Quad("255"), 32); ValidKey(k) && |FormatSubnet(k)| + 1 == SUBNET_LEN
  {
    DecimalSnoc(3, 2);
    Digits255();
    QuadAccepted("255");
  }
}
