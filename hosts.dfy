/**
 * The host values of a CIDR block, as integers. The block of prefix `ones`
 * at network value `start` (a multiple of its size 2^(bits - ones)) holds
 * start .. start + 2^(bits - ones) - 1; its mask is the value with the top
 * `ones` of `bits` bits set.
 */
module Hosts {
  import opened GoInts

  /** The integers lo, lo + 1, ..., hi - 1. */
  function Range(lo: nat, hi: nat): (r: seq<nat>)
    requires lo <= hi
    ensures |r| == hi - lo
    ensures forall k :: 0 <= k < |r| ==> r[k] == lo + k
  {
    seq(hi - lo, k => lo + k)
  }

  /**
   * The IPv4 hosts of the block of prefix `ones` at network value `start`:
   * every address of the block except its first (network) and last
   * (broadcast) one; none when the block has two addresses or fewer.
   */
  function V4Hosts(start: U32, ones: nat): (hosts: seq<nat>)
    requires ones <= 32 && start % Pow2(32 - ones) == 0
    ensures |hosts| == if Pow2(32 - ones) > 2 then Pow2(32 - ones) - 2 else 0
    ensures forall k :: 0 <= k < |hosts| ==> hosts[k] == start + 1 + k
  {
    var size := Pow2(32 - ones);
    if size > 2 then Range(start + 1, start + size - 1) else []
  }

  /**
   * The IPv6 hosts of the block of prefix `ones` at network value `start`:
   * every address of the block except its first (network) one, the last one
   * included.
   */
  function V6Hosts(start: nat, ones: nat): (hosts: seq<nat>)
    requires ones <= 128 && start < Pow2(128) && start % Pow2(128 - ones) == 0
    ensures |hosts| == Pow2(128 - ones) - 1
    ensures forall k :: 0 <= k < |hosts| ==> hosts[k] == start + 1 + k
  {
    var size := Pow2(128 - ones);
    if size > 1 then Range(start + 1, start + size) else []
  }

  // ---------------------------------------------------------------------
  // The block and its broadcast address

  /** Appending the next integer to a range extends it by one. */
  lemma RangeSnoc(lo: nat, hi: nat)
    requires lo <= hi
    ensures Range(lo, hi + 1) == Range(lo, hi) + [hi]
  {
    assert Range(lo, hi + 1)[hi - lo] == hi;
  }

  /** An aligned IPv4 block ends within the 32-bit space, and so do its hosts. */
  lemma V4HostsFit(start: U32, ones: nat)
    requires ones <= 32 && start % Pow2(32 - ones) == 0
    ensures start + Pow2(32 - ones) <= U32Modulus
    ensures forall k :: 0 <= k < |V4Hosts(start, ones)| ==> V4Hosts(start, ones)[k] < U32Modulus
  {
    Pow2Bytes();
    AlignedBlockFits(start, 32 - ones, 32);
  }

  /** An aligned IPv6 block ends within the 128-bit space, and so do its hosts. */
  lemma V6HostsFit(start: nat, ones: nat)
    requires ones <= 128 && start < Pow2(128) && start % Pow2(128 - ones) == 0
    ensures start + Pow2(128 - ones) <= Pow2(128)
    ensures forall k :: 0 <= k < |V6Hosts(start, ones)| ==> V6Hosts(start, ones)[k] < Pow2(128)
  {
    AlignedBlockFits(start, 128 - ones, 128);
  }

  /**
   * broadcast = start | ^mask is the last address of the block, so it is
   * never below start.
   */
  lemma V4BroadcastIsLast(start: U32, ones: nat, mask: U32)
    requires ones <= 32 && start % Pow2(32 - ones) == 0
    requires mask + Pow2(32 - ones) == U32Modulus
    ensures start <= Or(start, Not32(mask)) == start + Pow2(32 - ones) - 1 < U32Modulus
  {
    var h := 32 - ones;
    var o := Not32(mask);
    OrLowOnes(start, h, o);
    Pow2Bytes();
    AlignedBlockFits(start, h, 32);
  }

  /**
   * Counted without wrap-around, the block has broadcast - start + 1
   * addresses; when that is above 2 its hosts are exactly the values
   * strictly between start and broadcast, otherwise there are none.
   */
  lemma V4HostsBetween(start: U32, ones: nat, broadcast: U32)
    requires ones <= 32 && start % Pow2(32 - ones) == 0
    requires broadcast == start + Pow2(32 - ones) - 1
    ensures broadcast - start + 1 > 2 ==> V4Hosts(start, ones) == Range(start + 1, broadcast)
    ensures broadcast - start + 1 <= 2 ==> V4Hosts(start, ones) == []
  {
  }

  /**
   * `broadcast - start + 1` in `uint32` arithmetic is the block size for
   * every prefix but 0, where 2^32 wraps around to 0.
   */
  lemma V4TotalWraps(start: U32, ones: nat, broadcast: U32)
    requires ones <= 32 && start % Pow2(32 - ones) == 0
    requires broadcast == start + Pow2(32 - ones) - 1
    ensures ones > 0 ==> Add32(Sub32(broadcast, start), 1) == broadcast - start + 1
    ensures ones == 0 ==> Add32(Sub32(broadcast, start), 1) == 0
  {
    Pow2Bytes();
    if ones > 0 {
      Pow2Monotone(32 - ones, 31);
      Pow2Add(1, 31);
    }
  }

  /**
   * 0.0.0.0/0: the block has 2^32 - 2 hosts, but the wrapped block size is 0,
   * so the `total > 2` test fails and the loop never runs.
   */
  lemma V4SlashZeroEmitsNothing()
    ensures 0 % Pow2(32) == 0
    ensures |V4Hosts(0, 0)| == U32Modulus - 2
    ensures Add32(Sub32(0xFFFF_FFFF, 0), 1) == 0
  {
    Pow2Bytes();
  }

  /** The IPv6 hosts are the integers after the network address up to the end of its block. */
  lemma V6HostsRange(start: nat, ones: nat, total: nat)
    requires ones <= 128 && start < Pow2(128) && start % Pow2(128 - ones) == 0
    requires total == Pow2(128 - ones)
    ensures total > 1 ==> V6Hosts(start, ones) == Range(start + 1, start + total)
    ensures total <= 1 ==> V6Hosts(start, ones) == []
  {
  }

  // ---------------------------------------------------------------------
  // Which values are hosts, and how many

  /** A run of consecutive integers from lo holds exactly the integers from lo up to lo + its length. */
  lemma Consecutive(s: seq<nat>, lo: nat, x: nat)
    requires forall k :: 0 <= k < |s| ==> s[k] == lo + k
    ensures x in s <==> lo <= x < lo + |s|
  {
    if lo <= x < lo + |s| {
      assert s[x - lo] == x;
    }
  }

  /**
   * The IPv4 hosts are exactly the 32-bit values that the mask maps to the
   * network and that are neither the network nor the broadcast address.
   */
  lemma V4HostsExactly(start: U32, ones: nat, mask: U32, x: nat)
    requires ones <= 32 && start % Pow2(32 - ones) == 0
    requires mask + Pow2(32 - ones) == U32Modulus
    ensures x in V4Hosts(start, ones) <==>
      x < U32Modulus && And(x, mask) == start && x != start && x != Or(start, Not32(mask))
  {
    var h, top := 32 - ones, U32Modulus;
    var p := Pow2(h);
    V4BroadcastIsLast(start, ones, mask);
    Pow2Bytes();
    var inBlock := x < top && And(x, mask) == start;
    assert inBlock <==> x < top && start <= x < start + p by {
      if x < top {
        InBlock(x, start, 32, h, mask);
      }
    }
    var hosts := V4Hosts(start, ones);
    assert x in hosts <==> start < x < start + p - 1 by {
      Consecutive(hosts, start + 1, x);
    }
  }

  /**
   * The IPv6 hosts are exactly the 128-bit values that the mask maps to the
   * network, other than the network address itself.
   */
  lemma V6HostsExactly(start: nat, ones: nat, mask: nat, x: nat)
    requires ones <= 128 && start < Pow2(128) && start % Pow2(128 - ones) == 0
    requires mask + Pow2(128 - ones) == Pow2(128)
    ensures x in V6Hosts(start, ones) <==> x < Pow2(128) && And(x, mask) == start && x != start
  {
    var h, top := 128 - ones, Pow2(128);
    var p := Pow2(h);
    AlignedBlockFits(start, h, 128);
    var inBlock := x < top && And(x, mask) == start;
    assert inBlock <==> x < top && start <= x < start + p by {
      if x < top {
        InBlock(x, start, 128, h, mask);
      }
    }
    var hosts := V6Hosts(start, ones);
    assert x in hosts <==> start < x < start + p by {
      Consecutive(hosts, start + 1, x);
    }
  }

  /**
   * A block of prefix p has 2^(32 - p) - 2 hosts; prefixes 31 and 32 have
   * none.
   */
  lemma V4HostCount(start: U32, ones: nat)
    requires ones <= 32 && start % Pow2(32 - ones) == 0
    ensures |V4Hosts(start, ones)| == if ones <= 30 then Pow2(32 - ones) - 2 else 0
  {
    var h := 32 - ones;
    assert Pow2(0) == 1 && Pow2(1) == 2 && Pow2(2) == 4;
    if h >= 2 {
      Pow2Monotone(2, h);
    }
  }

  // ---------------------------------------------------------------------
  // Worked blocks

  /** 192.168.0.0/30 has the two hosts 192.168.0.1 and 192.168.0.2. */
  lemma V4Slash30Example()
    ensures 0xC0A8_0000 % Pow2(2) == 0
    ensures V4Hosts(0xC0A8_0000, 30) == [0xC0A8_0001, 0xC0A8_0002]
  {
    assert Pow2(2) == 4;
  }

  /** 192.168.0.0/31 has no hosts. */
  lemma V4Slash31Example()
    ensures 0xC0A8_0000 % Pow2(1) == 0
    ensures V4Hosts(0xC0A8_0000, 31) == []
  {
    assert Pow2(1) == 2;
  }

  /** 2001:db8::/126 has the three hosts 2001:db8::1, 2001:db8::2 and 2001:db8::3. */
  lemma V6Slash126Example()
    ensures 0x2001_0DB8_0000_0000_0000_0000_0000_0000 < Pow2(128)
    ensures 0x2001_0DB8_0000_0000_0000_0000_0000_0000 % Pow2(2) == 0
    ensures V6Hosts(0x2001_0DB8_0000_0000_0000_0000_0000_0000, 126) == [
      0x2001_0DB8_0000_0000_0000_0000_0000_0001,
      0x2001_0DB8_0000_0000_0000_0000_0000_0002,
      0x2001_0DB8_0000_0000_0000_0000_0000_0003]
  {
    Pow2Bytes();
    Pow2Sum(32, 32, 64);
    Pow2Sum(64, 32, 96);
    Pow2Sum(96, 32, 128);
    assert Pow2(2) == 4;
  }
}
