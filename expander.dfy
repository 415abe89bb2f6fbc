/**
 * The CIDR range expander: from a parsed CIDR block, the host addresses it
 * prints, in ascending order.
 *
 * IPv4 blocks are walked in `uint32` arithmetic and lose both their network
 * and their broadcast address; IPv6 blocks are walked with an unbounded
 * counter and lose only their network address. Printing is replaced by
 * appending the `net.IP` that would be rendered to an output sequence.
 */
module Expander {
  import opened GoInts
  import opened NetIP
  import opened Conversions
  import opened Hosts

  /**
   * What `net.ParseCIDR` returns for a valid CIDR: the address as written
   * (16-byte form), the network address (`ipNet.IP`, 4 bytes for IPv4, 16
   * for IPv6) and the prefix length (the `ones` of `ipNet.Mask`).
   */
  datatype Cidr = Cidr(ip: IP, network: IP, ones: nat)

  /** The outcome of parsing one CIDR string. */
  datatype Parsed = ParseError(message: string) | Parsed(cidr: Cidr)

  /**
   * The part of `ip` the mask applies to: the 4-byte form of an IPv4
   * address, all 16 bytes otherwise.
   */
  function MaskedPart(ip: IP): IP
  {
    match To4(ip)
    case Some(b) => b
    case None => ip
  }

  /**
   * A parse result the expander can be given: a 16-byte address; an IPv4
   * address (one with a 4-byte form) has a 4-byte network and a prefix of
   * at most 32, any other a 16-byte network and a prefix of at most 128;
   * and the network is the address and-ed with the prefix mask.
   * IPv4-mapped IPv6 blocks (`::ffff:a.b.c.d/120`) come with a 16-byte
   * network and are left out.
   */
  predicate WellFormed(c: Cidr)
  {
    && |c.ip| == 16
    && |c.network| == |MaskedPart(c.ip)|
    && c.ones <= 8 * |c.network|
    && SetBytes(c.network) == And(SetBytes(MaskedPart(c.ip)), SetBytes(CidrMask(c.ones, |c.network|)))
  }

  // ---------------------------------------------------------------------
  // The host addresses a parsed block should yield

  /** IPv4 host values as the addresses uint32ToIP makes of them. */
  function V4Addresses(values: seq<nat>): seq<IP>
    requires forall k :: 0 <= k < |values| ==> values[k] < U32Modulus
  {
    seq(|values|, k requires 0 <= k < |values| => Uint32ToIp(values[k]))
  }

  /** IPv6 host values as the addresses bigIntToIP(_, false) makes of them. */
  function V6Addresses(values: seq<nat>): seq<IP>
  {
    seq(|values|, k requires 0 <= k < |values| => BigIntToIp(values[k], false))
  }

  /** The IPv4 host addresses of the block of prefix `ones` at network value `start`. */
  function V4HostIps(start: U32, ones: nat): seq<IP>
    requires ones <= 32 && start % Pow2(32 - ones) == 0
  {
    V4HostsFit(start, ones);
    V4Addresses(V4Hosts(start, ones))
  }

  /**
   * The host addresses of a parsed block, in ascending order: for IPv4 all
   * but the network and broadcast addresses, for IPv6 all but the network
   * address.
   */
  function HostAddresses(c: Cidr): seq<IP>
    requires WellFormed(c)
  {
    NetworkIsAligned(c);
    if To4(c.ip).Some? then
      V4HostIps(Ip4ToUint32(c.network), c.ones)
    else
      V6Addresses(V6Hosts(SetBytes(c.network), c.ones))
  }

  // ---------------------------------------------------------------------
  // The expander

  /**
   * The IPv4 counting loop: every `uint32` strictly between start and
   * broadcast, in ascending order, as an address.
   */
  method EmitV4Range(start: U32, broadcast: U32) returns (out: seq<IP>)
    requires start < broadcast
    ensures out == V4Addresses(Range(start + 1, broadcast))
  {
    out := [];
    var i := Add32(start, 1);
    while i < broadcast
      invariant start < i <= broadcast
      invariant out == V4Addresses(Range(start + 1, i))
      decreases broadcast - i
    {
      V4AddressesSnoc(start + 1, i);
      out := out + [Uint32ToIp(i)];
      i := Add32(i, 1);
    }
  }

  /**
   * The IPv4 branch as written: broadcast and block size come from the mask
   * in `uint32` arithmetic. For a prefix of 0 the block size 2^32 wraps to
   * 0 and nothing is emitted; for every other prefix the output is the
   * block's hosts.
   */
  method ExpandV4(network: IP, ones: nat) returns (out: seq<IP>)
    requires |network| == 4 && ones <= 32 && Ip4ToUint32(network) % Pow2(32 - ones) == 0
    ensures ones == 0 ==> out == []
    ensures ones > 0 ==> out == V4HostIps(Ip4ToUint32(network), ones)
  {
    var start := Ip4ToUint32(network);
    var mask := Ip4ToUint32(CidrMask(ones, 4));
    V4Mask(ones);
    V4BroadcastIsLast(start, ones, mask);
    var broadcast: U32 := Or(start, Not32(mask));
    V4HostsBetween(start, ones, broadcast);
    V4TotalWraps(start, ones, broadcast);
    var total := Add32(Sub32(broadcast, start), 1);
    out := [];
    if total > 2 {
      out := EmitV4Range(start, broadcast);
    }
  }

  /**
   * The IPv4 branch with the block size counted without wrap-around: the
   * output is the block's hosts for every prefix, 0 included.
   */
  method ExpandV4Intended(network: IP, ones: nat) returns (out: seq<IP>)
    requires |network| == 4 && ones <= 32 && Ip4ToUint32(network) % Pow2(32 - ones) == 0
    ensures out == V4HostIps(Ip4ToUint32(network), ones)
  {
    var start := Ip4ToUint32(network);
    var mask := Ip4ToUint32(CidrMask(ones, 4));
    V4Mask(ones);
    V4BroadcastIsLast(start, ones, mask);
    var broadcast: U32 := Or(start, Not32(mask));
    V4HostsBetween(start, ones, broadcast);
    var total: nat := broadcast - start + 1;
    out := [];
    if total > 2 {
      out := EmitV4Range(start, broadcast);
    }
  }

  /**
   * The IPv6 counting loop: the `big.Int` counter i runs from 1 up to but
   * excluding total, and networkInt + i is emitted each time.
   */
  method EmitV6Range(networkInt: nat, total: nat) returns (out: seq<IP>)
    requires total >= 1
    ensures out == V6Addresses(Range(networkInt + 1, networkInt + total))
  {
    out := [];
    var first := networkInt + 1;
    var i := 1;
    while i < total
      invariant 1 <= i <= total
      invariant out == V6Addresses(Range(first, networkInt + i))
    {
      var ipInt := networkInt + i;
      V6AddressesSnoc(first, ipInt);
      out := out + [BigIntToIp(ipInt, false)];
      i := i + 1;
    }
  }

  /**
   * The IPv6 branch: the block size 2^(128 - ones) is an unbounded integer,
   * and the counter walks 1 .. size - 1 from the network address.
   */
  method ExpandV6(network: IP, ones: nat) returns (out: seq<IP>)
    requires |network| == 16 && ones <= 128 && SetBytes(network) % Pow2(128 - ones) == 0
    ensures out == V6Addresses(V6Hosts(SetBytes(network), ones))
  {
    var start := SetBytes(network);
    var total := Pow2(128 - ones);
    var hosts := V6Hosts(start, ones);
    out := [];
    if total > 1 {
      var networkInt := IpToBigInt(network);
      assert hosts == Range(networkInt + 1, networkInt + total) by {
        V6HostsRange(start, ones, total);
      }
      out := EmitV6Range(networkInt, total);
    } else {
      assert hosts == [];
    }
  }

  /**
   * extractIPsFromCIDR as written: a parse error yields only an error
   * message; an address with a 4-byte form goes through the IPv4 branch,
   * any other through the IPv6 branch. An IPv4 block of prefix 0 yields
   * nothing.
   */
  method ExtractIPsFromCidr(parsed: Parsed) returns (out: seq<IP>, errors: seq<string>)
    requires parsed.Parsed? ==> WellFormed(parsed.cidr)
    ensures parsed.ParseError? ==> out == [] && errors == ["Error: " + parsed.message]
    ensures parsed.Parsed? ==> errors == []
    ensures parsed.Parsed? && To4(parsed.cidr.ip).Some? && parsed.cidr.ones == 0 ==> out == []
    ensures parsed.Parsed? && (To4(parsed.cidr.ip).None? || parsed.cidr.ones > 0) ==>
      out == HostAddresses(parsed.cidr)
  {
    match parsed
    case ParseError(message) =>
      out, errors := [], ["Error: " + message];
    case Parsed(c) =>
      errors := [];
      NetworkIsAligned(c);
      if To4(c.ip).Some? {
        out := ExpandV4(c.network, c.ones);
      } else {
        out := ExpandV6(c.network, c.ones);
      }
  }

  /**
   * extractIPsFromCIDR with the IPv4 block size counted without
   * wrap-around: every parsed block yields exactly its host addresses.
   */
  method ExtractIPsFromCidrIntended(parsed: Parsed) returns (out: seq<IP>, errors: seq<string>)
    requires parsed.Parsed? ==> WellFormed(parsed.cidr)
    ensures parsed.ParseError? ==> out == [] && errors == ["Error: " + parsed.message]
    ensures parsed.Parsed? ==> errors == [] && out == HostAddresses(parsed.cidr)
  {
    match parsed
    case ParseError(message) =>
      out, errors := [], ["Error: " + message];
    case Parsed(c) =>
      errors := [];
      NetworkIsAligned(c);
      if To4(c.ip).Some? {
        out := ExpandV4Intended(c.network, c.ones);
      } else {
        out := ExpandV6(c.network, c.ones);
      }
  }

  // ---------------------------------------------------------------------
  // Lemmas: the block, its mask and its broadcast address

  /** The network of a well-formed parse result has all its host bits zero. */
  lemma NetworkIsAligned(c: Cidr)
    requires WellFormed(c)
    ensures SetBytes(c.network) % Pow2(8 * |c.network| - c.ones) == 0
  {
    var n := 8 * |c.network|;
    var h := n - c.ones;
    var x := SetBytes(MaskedPart(c.ip));
    var mask := SetBytes(CidrMask(c.ones, |c.network|));
    AndHighMask(x, n, h, mask);
    ClearedIsAligned(x, Pow2(h));
  }

  /** The IPv4 mask of prefix p, as a `uint32`, has its top p bits set and the rest clear. */
  lemma V4Mask(ones: nat)
    requires ones <= 32
    ensures Ip4ToUint32(CidrMask(ones, 4)) + Pow2(32 - ones) == U32Modulus
  {
    var m := CidrMask(ones, 4);
    assert To4(m) == Some(m);
    Pow2Bytes();
  }

  /** One more step of the IPv4 loop prints the address of the next value. */
  lemma V4AddressesSnoc(lo: nat, hi: U32)
    requires lo <= hi
    ensures V4Addresses(Range(lo, hi + 1)) == V4Addresses(Range(lo, hi)) + [Uint32ToIp(hi)]
  {
    RangeSnoc(lo, hi);
  }

  /** One more step of the IPv6 loop prints the address of the next value. */
  lemma V6AddressesSnoc(lo: nat, hi: nat)
    requires lo <= hi
    ensures V6Addresses(Range(lo, hi + 1)) == V6Addresses(Range(lo, hi)) + [BigIntToIp(hi, false)]
  {
    RangeSnoc(lo, hi);
  }

  /** Every printed IPv4 address reads back, through ip4ToUint32, as its host value. */
  lemma V4AddressesDecode(values: seq<nat>)
    requires forall k :: 0 <= k < |values| ==> values[k] < U32Modulus
    ensures |V4Addresses(values)| == |values|
    ensures forall k :: 0 <= k < |values| ==>
      |V4Addresses(values)[k]| == 16 && To4(V4Addresses(values)[k]).Some? &&
      Ip4ToUint32(V4Addresses(values)[k]) == values[k]
  {
    forall k | 0 <= k < |values|
      ensures Ip4ToUint32(V4Addresses(values)[k]) == values[k]
    {
      Uint32RoundTrip(values[k]);
    }
  }

  /** Every printed IPv6 address is 16 bytes and reads back, through ipToBigInt, as its host value. */
  lemma V6AddressesDecode(values: seq<nat>)
    requires forall k :: 0 <= k < |values| ==> values[k] < Pow2(128)
    ensures |V6Addresses(values)| == |values|
    ensures forall k :: 0 <= k < |values| ==>
      |V6Addresses(values)[k]| == 16 && IpToBigInt(V6Addresses(values)[k]) == values[k]
  {
    forall k | 0 <= k < |values|
      ensures |V6Addresses(values)[k]| == 16 && IpToBigInt(V6Addresses(values)[k]) == values[k]
    {
      BigIntRoundTrip(values[k]);
    }
  }

  // ---------------------------------------------------------------------
  // Lemmas: the host addresses of a parsed block

  /**
   * The IPv4 host addresses of a block of prefix p: 2^(32 - p) - 2 of them
   * (none for /31 and /32), reading back through ip4ToUint32 as start + 1,
   * start + 2, ... in ascending order.
   */
  lemma V4HostAddresses(c: Cidr, start: U32)
    requires WellFormed(c) && To4(c.ip).Some? && start == Ip4ToUint32(c.network)
    ensures |HostAddresses(c)| == if c.ones <= 30 then Pow2(32 - c.ones) - 2 else 0
    ensures forall k :: 0 <= k < |HostAddresses(c)| ==>
      To4(HostAddresses(c)[k]).Some? && Ip4ToUint32(HostAddresses(c)[k]) == start + 1 + k
  {
    NetworkIsAligned(c);
    V4HostsFit(start, c.ones);
    V4HostCount(start, c.ones);
    V4AddressesDecode(V4Hosts(start, c.ones));
  }

  /**
   * Every IPv4 host address masks back to the network and is neither the
   * network nor the broadcast address start | ^mask.
   */
  lemma V4HostsInNetwork(c: Cidr, start: U32, mask: U32)
    requires WellFormed(c) && To4(c.ip).Some? && start == Ip4ToUint32(c.network)
    requires mask == Ip4ToUint32(CidrMask(c.ones, 4))
    ensures forall k :: 0 <= k < |HostAddresses(c)| ==>
      var x := Ip4ToUint32(HostAddresses(c)[k]);
      And(x, mask) == start && x != start && x != Or(start, Not32(mask))
  {
    NetworkIsAligned(c);
    V4HostsFit(start, c.ones);
    var hosts := V4Hosts(start, c.ones);
    V4AddressesDecode(hosts);
    V4Mask(c.ones);
    forall k | 0 <= k < |hosts|
      ensures And(hosts[k], mask) == start && hosts[k] != start && hosts[k] != Or(start, Not32(mask))
    {
      V4HostsExactly(start, c.ones, mask, hosts[k]);
    }
  }

  /**
   * The IPv6 host addresses of a block of prefix p: 2^(128 - p) - 1 of them
   * (none for /128), 16 bytes each, reading back through ipToBigInt as
   * start + 1, start + 2, ... up to and including the last address of the
   * block.
   */
  lemma V6HostAddresses(c: Cidr, start: nat)
    requires WellFormed(c) && To4(c.ip).None? && start == SetBytes(c.network)
    ensures |HostAddresses(c)| == Pow2(128 - c.ones) - 1
    ensures forall k :: 0 <= k < |HostAddresses(c)| ==>
      |HostAddresses(c)[k]| == 16 && IpToBigInt(HostAddresses(c)[k]) == start + 1 + k
    ensures |HostAddresses(c)| > 0 ==>
      IpToBigInt(HostAddresses(c)[|HostAddresses(c)| - 1]) == start + Pow2(128 - c.ones) - 1
  {
    NetworkIsAligned(c);
    V6HostsFit(start, c.ones);
    var hosts := V6Hosts(start, c.ones);
    V6AddressesDecode(hosts);
    assert HostAddresses(c) == V6Addresses(hosts);
  }

  /** Every IPv6 host address masks back to the network and is not the network address. */
  lemma V6HostsInNetwork(c: Cidr, start: nat, mask: nat)
    requires WellFormed(c) && To4(c.ip).None? && start == SetBytes(c.network)
    requires mask == SetBytes(CidrMask(c.ones, 16))
    ensures forall k :: 0 <= k < |HostAddresses(c)| ==>
      var x := IpToBigInt(HostAddresses(c)[k]);
      And(x, mask) == start && x != start
  {
    NetworkIsAligned(c);
    V6HostsFit(start, c.ones);
    var hosts := V6Hosts(start, c.ones);
    V6AddressesDecode(hosts);
    forall k | 0 <= k < |hosts|
      ensures And(hosts[k], mask) == start && hosts[k] != start
    {
      V6HostsExactly(start, c.ones, mask, hosts[k]);
    }
  }
}
