/** Addresses and networks as numbers: four octets make an address, and a mask cuts the addresses into blocks. */
module Networks {
  import Divisions

  predicate IsOctets(o: seq<int>) { |o| == 4 && forall i | 0 <= i < 4 :: 0 <= o[i] <= 255 }

  /** The 32-bit number with these octets. */
  function Quadword(o: seq<int>): (n: nat)
    requires IsOctets(o)
    ensures n < 0x1_0000_0000
  { 0x100_0000 * o[0] + 0x1_0000 * o[1] + 0x100 * o[2] + o[3] }

  function OctetsOf(n: nat): (o: seq<int>)
    requires n < 0x1_0000_0000
    ensures IsOctets(o)
  { [n / 0x100_0000, n / 0x1_0000 % 0x100, n / 0x100 % 0x100, n % 0x100] }

  lemma QuadwordOfOctets(n: nat)
    requires n < 0x1_0000_0000
    ensures Quadword(OctetsOf(n)) == n
  {
    assert n / 0x1_0000 == n / 0x100 / 0x100 && n / 0x100_0000 == n / 0x1_0000 / 0x100;
  }

  lemma DigitsUnique(x: int, c: int, y: int, d: int)
    requires 0 <= c < 0x100 && 0 <= d < 0x100 && 0x100 * x + c == 0x100 * y + d
    ensures x == y && c == d
  {}

  lemma QuadwordUnique(o: seq<int>, p: seq<int>)
    requires IsOctets(o) && IsOctets(p) && Quadword(o) == Quadword(p)
    ensures o == p
  {
    DigitsUnique(0x1_0000 * o[0] + 0x100 * o[1] + o[2], o[3], 0x1_0000 * p[0] + 0x100 * p[1] + p[2], p[3]);
    DigitsUnique(0x100 * o[0] + o[1], o[2], 0x100 * p[0] + p[1], p[2]);
    DigitsUnique(o[0], o[1], p[0], p[1]);
  }

  // ---------------------------------------------------------------- blocks

  function Pow2(n: nat): (p: nat)
    ensures p > 0
  { if n == 0 then 1 else 2 * Pow2(n - 1) }

  lemma {:induction false} Pow2Order(m: nat, n: nat)
    requires m < n
    ensures Pow2(m) < Pow2(n)
  {
    if m < n - 1 { Pow2Order(m, n - 1); }
  }

  lemma {:induction false} Pow2Sum(m: nat, n: nat)
    ensures Pow2(m + n) == Pow2(m) * Pow2(n)
  {
    if n > 0 { Pow2Sum(m, n - 1); }
  }

  lemma Pow32()
    ensures Pow2(32) == 0x1_0000_0000
  {
    Pow2Sum(2, 2);
    Pow2Sum(4, 4);
    Pow2Sum(8, 8);
    Pow2Sum(16, 16);
  }

  /** An address and the number of its leading bits that count. */
  datatype Network = Network(address: nat, mask: Mask)

  type Mask = m: nat | m <= 32

  /** How many addresses agree on the leading bits. */
  function Size(mask: Mask): (s: nat)
    ensures s > 0
  { Pow2(32 - mask) }

  predicate Covers(n: Network, x: nat) { x / Size(n.mask) == n.address / Size(n.mask) }

  ghost predicate SameAddresses(n: Network, m: Network) { forall x: nat :: Covers(n, x) <==> Covers(m, x) }

  /** A block of numbers has one that a given smaller block does not have. */
  lemma LargerBlock(big: nat, n: nat, small: nat, m: nat) returns (x: nat)
    requires 0 < small < big
    ensures x / big == n / big && x / small != m / small
  {
    var q := n / big;
    var b := big * q;
    Divisions.DivUnique(b, big, q, 0);
    Divisions.DivUnique(b + small, big, q, small);
    Divisions.DivNext(b, small);
    x := if b / small == m / small then b + small else b;
  }

  lemma LargerDiffers(n: Network, m: Network) returns (x: nat)
    requires n.mask < m.mask
    ensures Covers(n, x) && !Covers(m, x)
  {
    Pow2Order(32 - m.mask, 32 - n.mask);
    x := LargerBlock(Size(n.mask), n.address, Size(m.mask), m.address);
  }

  /** The same addresses means the same mask and the same leading bits. */
  lemma SameAddressesIff(n: Network, m: Network)
    ensures SameAddresses(n, m) <==> n.mask == m.mask && Covers(m, n.address)
  {
    if SameAddresses(n, m) {
      assert Covers(n, n.address);
      if n.mask < m.mask {
        var x := LargerDiffers(n, m);
      } else if m.mask < n.mask {
        var x := LargerDiffers(m, n);
      }
    }
  }

  /** No bit is set outside the mask. */
  predicate Normal(n: Network) { n.address % Size(n.mask) == 0 }

  function Normalized(n: Network): (m: Network)
    ensures m.mask == n.mask && m.address <= n.address
  { n.(address := Divisions.RoundDown(n.address, Size(n.mask))) }

  lemma NormalizedIs(n: Network)
    ensures Normal(Normalized(n)) && SameAddresses(Normalized(n), n)
  {
    Divisions.RoundDownIs(n.address, Size(n.mask));
    SameAddressesIff(Normalized(n), n);
  }

  lemma NormalUnique(n: Network, m: Network)
    requires Normal(n) && Normal(m) && SameAddresses(n, m)
    ensures n == m
  {
    SameAddressesIff(n, m);
    Divisions.EvenUnique(n.address, m.address, Size(n.mask));
  }

  /** No bit counts under an empty mask. */
  lemma WholeRange(address: nat)
    requires address < 0x1_0000_0000
    ensures SameAddresses(Network(0, 0), Network(address, 0))
  {
    Pow32();
    Divisions.DivUnique(0, Size(0), 0, 0);
    Divisions.DivUnique(address, Size(0), 0, address);
    SameAddressesIff(Network(0, 0), Network(address, 0));
  }
}
