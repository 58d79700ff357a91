/** Socket addresses and the octet-wise masking of src/connectors/echonet.rs. */
module NetworkAddress {
  import opened Bits
  import opened Outcomes
  import opened HexSpec

  type Octets4 = s: seq<byte> | |s| == 4 witness [0, 0, 0, 0]
  type Octets16 = s: seq<byte> | |s| == 16 witness [0, 0, 0, 0, 0, 0, 0, 0, 0, 0, 0, 0, 0, 0, 0, 0]

  datatype SocketAddr =
    | V4(ip4: Octets4, port: u16)
    | V6(ip6: Octets16, port: u16, flowinfo: nat, scopeId: nat)

  datatype ConnectorError = MismatchedTypes | NoSuchInterface

  function Masked(a: seq<byte>, m: seq<byte>): (r: seq<byte>)
    requires |a| == |m|
    ensures |r| == |a|
    ensures forall i | 0 <= i < |a| :: r[i] == And(a[i], m[i])
  {
    seq(|a|, i requires 0 <= i < |a| => And(a[i], m[i]))
  }

  function NetworkOf(address: SocketAddr, netmask: SocketAddr): Outcome<SocketAddr, ConnectorError> {
    if address.V4? && netmask.V4? then Ok(V4(Masked(address.ip4, netmask.ip4), address.port))
    else if address.V6? && netmask.V6? then
      Ok(V6(Masked(address.ip6, netmask.ip6), address.port, address.flowinfo, address.scopeId))
    else Err(MismatchedTypes)
  }

  /** The masking loop, over a copy of the octets. */
  method MaskOctets(octets: seq<byte>, mask: seq<byte>) returns (network: seq<byte>)
    requires |octets| == |mask|
    ensures network == Masked(octets, mask)
  {
    network := octets;
    for index := 0 to |octets|
      invariant |network| == |octets|
      invariant network == Masked(octets, mask)[..index] + octets[index..]
    {
      network := network[index := And(network[index], mask[index])];
    }
  }

  method ToNetwork(address: SocketAddr, netmask: SocketAddr) returns (r: Outcome<SocketAddr, ConnectorError>)
    ensures r == NetworkOf(address, netmask)
    ensures r.Ok? ==> IsNetwork(address, netmask, r.value)
    ensures !r.Ok? ==> r == Err(MismatchedTypes) && (address.V4? <==> netmask.V6?)
  {
    NetworkExactly(address, netmask);
    match (address, netmask) {
      case (V4(ip, port), V4(mask, _)) =>
        var octets := MaskOctets(ip, mask);
        r := Ok(V4(octets, port));
      case (V6(ip, port, flow, scope), V6(mask, _, _, _)) =>
        var octets := MaskOctets(ip, mask);
        r := Ok(V6(octets, port, flow, scope));
      case _ =>
        r := Err(MismatchedTypes);
    }
  }

  // ----- what the network is, octet by octet and bit by bit

  function Octets(a: SocketAddr): (s: seq<byte>)
    ensures |s| == if a.V4? then 4 else 16
  {
    match a
    case V4(ip, _) => ip
    case V6(ip, _, _, _) => ip
  }

  /** Each bit is kept exactly where the mask has a one. */
  ghost predicate MaskedBits(a: seq<byte>, m: seq<byte>, r: seq<byte>) {
    && |r| == |a| == |m|
    && forall i, j: nat | 0 <= i < |a| && j < 8 :: Bit(r[i], j) <==> Bit(a[i], j) && Bit(m[i], j)
  }

  /** All three are of one family; the network has the address's port and, in IPv6, its flow
      information and scope, and the octets of the address under the mask. */
  ghost predicate IsNetwork(address: SocketAddr, netmask: SocketAddr, network: SocketAddr) {
    && (address.V4? <==> netmask.V4?) && (address.V4? <==> network.V4?)
    && network.port == address.port
    && (address.V6? ==> network.flowinfo == address.flowinfo && network.scopeId == address.scopeId)
    && MaskedBits(Octets(address), Octets(netmask), Octets(network))
  }

  lemma MaskedExactly(a: seq<byte>, m: seq<byte>, r: seq<byte>)
    requires |a| == |m|
    ensures r == Masked(a, m) <==> MaskedBits(a, m, r)
  {
    forall i, j: nat | 0 <= i < |a| && j < 8 ensures Bit(Masked(a, m)[i], j) <==> Bit(a[i], j) && Bit(m[i], j) {
      AndBit(a[i], m[i], j);
    }
    if MaskedBits(a, m, r) { SameOctets(a, m, r); }
  }

  lemma SameOctets(a: seq<byte>, m: seq<byte>, r: seq<byte>)
    requires MaskedBits(a, m, r)
    ensures r == Masked(a, m)
  {
    Sixteen();
    forall i | 0 <= i < |a| ensures r[i] == Masked(a, m)[i] {
      forall j: nat | j < 8 ensures Bit(r[i], j) == Bit(And(a[i], m[i]), j) {
        AndBit(a[i], m[i], j);
      }
      SameBits(r[i], And(a[i], m[i]), 8);
    }
  }

  /** An address and a mask of one family have exactly one network, and it is the one computed;
      other pairs have none. */
  lemma NetworkExactly(address: SocketAddr, netmask: SocketAddr)
    ensures NetworkOf(address, netmask).Ok? ==> IsNetwork(address, netmask, NetworkOf(address, netmask).value)
    ensures forall network | IsNetwork(address, netmask, network) :: NetworkOf(address, netmask) == Ok(network)
    ensures !NetworkOf(address, netmask).Ok? ==> NetworkOf(address, netmask) == Err(MismatchedTypes)
  {
    var (a, m) := (Octets(address), Octets(netmask));
    if |a| == |m| {
      MaskedExactly(a, m, Masked(a, m));
      forall network | IsNetwork(address, netmask, network) ensures NetworkOf(address, netmask) == Ok(network) {
        MaskedExactly(a, m, Octets(network));
      }
    }
  }

  /** With a mask of p ones the network's octets hold the address rounded down to a multiple of
      the power of two that the other bits span. */
  lemma NetworkRoundsDown(address: SocketAddr, netmask: SocketAddr, network: SocketAddr, p: nat)
    requires IsNetwork(address, netmask, network)
    requires p <= 8 * |Octets(address)| && Octets(netmask) == PrefixMask(|Octets(address)|, p)
    ensures BeValue(Octets(network))
         == BeValue(Octets(address)) - BeValue(Octets(address)) % Pow2(8 * |Octets(address)| - p)
  {
    MaskedExactly(Octets(address), Octets(netmask), Octets(network));
    PrefixMaskRoundsDown(Octets(address), p);
  }

  // ----- prefix masks

  function PrefixOctet(p: nat, i: nat): byte {
    Sixteen();
    if p >= 8 * i + 8 then 0xff
    else if p <= 8 * i then 0
    else
      Pow2Mono(8 * i + 8 - p, 8);
      0x100 - Pow2(8 * i + 8 - p)
  }

  /** k octets whose first p bits are ones. */
  function PrefixMask(k: nat, p: nat): (m: seq<byte>)
    ensures |m| == k
    ensures forall i | 0 <= i < k :: m[i] == PrefixOctet(p, i)
  {
    seq(k, i requires 0 <= i < k => PrefixOctet(p, i))
  }

  /** Masking one octet with its top bits clears what they leave out. */
  lemma MaskOneOctet(x: byte, t: nat)
    requires t <= 8
    ensures Pow2(t) <= 0x100 && And(x, 0x100 - Pow2(t)) == x - x % Pow2(t)
  {
    Sixteen();
    Pow2Mono(t, 8);
    AndComplement(x, Pow2(t) - 1, 0x100 - Pow2(t), 8);
    AndOnes(x, t);
  }

  lemma {:induction false} Pow2Add(a: nat, b: nat)
    ensures Pow2(a + b) == Pow2(a) * Pow2(b)
  {
    if a > 0 {
      Pow2Add(a - 1, b);
      assert 2 * (Pow2(a - 1) * Pow2(b)) == 2 * Pow2(a - 1) * Pow2(b);
    }
  }

  /** Appending a low octet and clearing all of it. */
  lemma ClearLowOctet(v: nat, x: byte, m: nat)
    requires m > 0
    ensures 0x100 * (v - v % m) == 0x100 * v + x - (0x100 * v + x) % (0x100 * m)
  {
    var q, r := v / m, v % m;
    assert v == m * q + r;
    assert 0x100 * v + x == q * (0x100 * m) + (0x100 * r + x);
    DivModUnique(0x100 * v + x, 0x100 * m, q, 0x100 * r + x);
  }

  lemma MulShuffle(m: int, c: int, v: int, q: int)
    ensures m * c * v + m * q == (c * v + q) * m
  {
    assert m * c * v == c * v * m;
  }

  /** Appending a low octet and clearing its last bits, m being the power of two they span. */
  lemma ClearLowBits(v: nat, x: byte, m: nat, c: nat)
    requires m > 0 && m * c == 0x100
    ensures 0x100 * v + (x - x % m) == 0x100 * v + x - (0x100 * v + x) % m
  {
    MulShuffle(m, c, v, x / m);
    assert x == m * (x / m) + x % m;
    DivModUnique(0x100 * v + x, m, c * v + x / m, x % m);
  }

  lemma MaskedInit(a: seq<byte>, p: nat)
    requires a != []
    ensures var k := |a|;
      Masked(a, PrefixMask(k, p)) == Masked(a[..k - 1], PrefixMask(k - 1, p)) + [And(a[k - 1], PrefixOctet(p, k - 1))]
  {
  }

  /** The masked address without and with its last octet. */
  lemma MaskedValue(a: seq<byte>, p: nat)
    requires a != []
    ensures var init := a[..|a| - 1];
      BeValue(Masked(a, PrefixMask(|a|, p)))
      == 0x100 * BeValue(Masked(init, PrefixMask(|init|, p))) + And(a[|a| - 1], PrefixOctet(p, |init|))
    ensures BeValue(a) == 0x100 * BeValue(a[..|a| - 1]) + a[|a| - 1]
  {
    MaskedInit(a, p);
    BeSnoc(Masked(a[..|a| - 1], PrefixMask(|a| - 1, p)), And(a[|a| - 1], PrefixOctet(p, |a| - 1)));
  }

  /** An octet beyond the prefix is cleared whole; t bits are cleared in all. */
  lemma PrefixStepOuter(a: seq<byte>, p: nat, t: nat)
    requires a != [] && t >= 8 && p + t == 8 * |a|
    requires BeValue(Masked(a[..|a| - 1], PrefixMask(|a| - 1, p))) == RoundDown(BeValue(a[..|a| - 1]), Pow2(t - 8))
    ensures BeValue(Masked(a, PrefixMask(|a|, p))) == RoundDown(BeValue(a), Pow2(t))
  {
    MaskedValue(a, p);
    assert PrefixOctet(p, |a| - 1) == 0;
    OuterOctet(BeValue(a[..|a| - 1]), a[|a| - 1], BeValue(a), t);
  }

  /** The octet in which the prefix ends; its last t bits are cleared. */
  lemma PrefixStepBoundary(a: seq<byte>, p: nat, t: nat)
    requires a != [] && t < 8 && p + t == 8 * |a|
    ensures BeValue(Masked(a, PrefixMask(|a|, p))) == RoundDown(BeValue(a), Pow2(t))
  {
    MaskedValue(a, p);
    FullMask(a[..|a| - 1], p);
    BoundaryMask(p, |a| - 1, t);
    BoundaryOctet(BeValue(a[..|a| - 1]), a[|a| - 1], BeValue(a), PrefixOctet(p, |a| - 1), t);
  }

  lemma BoundaryMask(p: nat, i: nat, t: nat)
    requires t < 8 && p + t == 8 * i + 8
    ensures Pow2(t) <= 0x100 && PrefixOctet(p, i) == 0x100 - Pow2(t)
  {
    Sixteen();
    Pow2Mono(t, 8);
  }

  /** Masking with a prefix of p bits rounds the big-endian address down to a multiple of
      2^(8k - p), for any number of octets k. */
  lemma {:induction false} PrefixMaskRoundsDown(a: seq<byte>, p: nat)
    requires p <= 8 * |a|
    ensures BeValue(Masked(a, PrefixMask(|a|, p))) == RoundDown(BeValue(a), Pow2(8 * |a| - p))
  {
    if a != [] {
      if p <= 8 * (|a| - 1) {
        PrefixMaskRoundsDown(a[..|a| - 1], p);
        PrefixStepOuter(a, p, 8 * |a| - p);
      } else {
        PrefixStepBoundary(a, p, 8 * |a| - p);
      }
    }
  }

  function RoundDown(v: nat, m: nat): int
    requires m > 0
  {
    v - v % m
  }

  /** w ends in the octet x, which is cleared whole. */
  lemma OuterOctet(v: nat, x: byte, w: nat, t: nat)
    requires t >= 8 && w == 0x100 * v + x
    ensures And(x, 0) == 0
    ensures 0x100 * RoundDown(v, Pow2(t - 8)) == RoundDown(w, Pow2(t))
  {
    Pow2Add(8, t - 8);
    Sixteen();
    ClearLowOctet(v, x, Pow2(t - 8));
  }

  /** w ends in the octet x, which keeps all but its last t bits. */
  lemma BoundaryOctet(v: nat, x: byte, w: nat, m: byte, t: nat)
    requires t < 8 && m == 0x100 - Pow2(t) && w == 0x100 * v + x
    ensures 0x100 * v + And(x, m) == RoundDown(w, Pow2(t))
  {
    MaskOneOctet(x, t);
    Pow2OfOctet(t);
    ClearLowBits(v, x, Pow2(t), Pow2(8 - t));
  }

  lemma Pow2OfOctet(t: nat)
    requires t <= 8
    ensures Pow2(t) * Pow2(8 - t) == 0x100
  {
    Pow2Add(t, 8 - t);
    Sixteen();
  }

  lemma FullMask(a: seq<byte>, p: nat)
    requires p >= 8 * |a|
    ensures Masked(a, PrefixMask(|a|, p)) == a
  {
    forall i | 0 <= i < |a| ensures And(a[i], PrefixOctet(p, i)) == a[i] {
      MaskOneOctet(a[i], 0);
    }
  }

  /** Two addresses have the same network exactly when their top p bits agree. */
  lemma SameNetworkIffPrefixAgrees(a: seq<byte>, b: seq<byte>, p: nat)
    requires |a| == |b| && p <= 8 * |a|
    ensures Masked(a, PrefixMask(|a|, p)) == Masked(b, PrefixMask(|b|, p))
            <==> BeValue(a) / Pow2(8 * |a| - p) == BeValue(b) / Pow2(8 * |b| - p)
  {
    PrefixMaskRoundsDown(a, p);
    PrefixMaskRoundsDown(b, p);
    var na, nb := Masked(a, PrefixMask(|a|, p)), Masked(b, PrefixMask(|b|, p));
    SameRounded(na, nb, BeValue(a), BeValue(b), Pow2(8 * |a| - p));
  }

  /** Buffers holding two rounded numbers are equal exactly when the quotients are. */
  lemma SameRounded(na: seq<byte>, nb: seq<byte>, x: nat, y: nat, m: nat)
    requires m > 0 && |na| == |nb| && BeValue(na) == RoundDown(x, m) && BeValue(nb) == RoundDown(y, m)
    ensures na == nb <==> x / m == y / m
  {
    RoundDownIsQuotient(x, y, m);
    EqualIffSameValue(na, nb);
  }

  lemma EqualIffSameValue(a: seq<byte>, b: seq<byte>)
    requires |a| == |b|
    ensures a == b <==> BeValue(a) == BeValue(b)
  {
    if BeValue(a) == BeValue(b) { BeInjective(a, b); }
  }

  lemma RoundDownIsQuotient(x: nat, y: nat, m: nat)
    requires m > 0
    ensures RoundDown(x, m) == RoundDown(y, m) <==> x / m == y / m
  {
    assert x == m * (x / m) + x % m && y == m * (y / m) + y % m;
    var d := x / m - y / m;
    assert m * d == m * (x / m) - m * (y / m);
    MulAtLeast(m, d);
  }

  /** Masking twice is masking once, whatever the mask. */
  lemma MaskIdempotent(a: seq<byte>, m: seq<byte>)
    requires |a| == |m|
    ensures Masked(Masked(a, m), m) == Masked(a, m)
  {
    Sixteen();
    forall i | 0 <= i < |a| ensures And(And(a[i], m[i]), m[i]) == And(a[i], m[i]) {
      var once := And(a[i], m[i]);
      forall j: nat | j < 8 ensures Bit(And(once, m[i]), j) == Bit(once, j) {
        AndBit(once, m[i], j);
        AndBit(a[i], m[i], j);
      }
      SameBits(And(once, m[i]), once, 8);
    }
  }
}
