/**
 * The address/integer conversions of the expander: IPv4 addresses to and
 * from `uint32`, any address to and from a `big.Int`, all in network
 * (big-endian) byte order.
 */
module Conversions {
  import opened GoInts
  import opened NetIP

  /**
   * ip4ToUint32: the four octets of an IPv4 address, shifted into place and
   * or-ed together, are the address's big-endian value. Go indexes a nil
   * slice (and panics) when the address has no 4-byte form, so callers only
   * pass IPv4 addresses.
   */
  function Ip4ToUint32(ip: IP): (n: U32)
    requires To4(ip).Some?
    ensures n == SetBytes(To4(ip).value)
  {
    var b := To4(ip).value;
    PackOctets(b[0], b[1], b[2], b[3]);
    assert b == [b[0], b[1], b[2], b[3]];
    Or(Or(Or(Shl32(b[0], 24), Shl32(b[1], 16)), Shl32(b[2], 8)), b[3])
  }

  /**
   * uint32ToIP: the 16-byte IPv4-mapped address whose four octets are the
   * big-endian bytes of n.
   */
  function Uint32ToIp(n: U32): (ip: IP)
    ensures |ip| == 16 && To4(ip) == Some(FixedBytes(n, 4))
  {
    UnpackOctets(n);
    IPv4(ToByte(Shr(n, 24)), ToByte(And(Shr(n, 16), 0xFF)), ToByte(And(Shr(n, 8), 0xFF)), ToByte(And(n, 0xFF)))
  }

  /**
   * ipToBigInt: the big-endian value of the address's 16-byte form (an IPv4
   * address counts as ::ffff:a.b.c.d); `SetBytes(nil)` is zero.
   */
  function IpToBigInt(ip: IP): (v: nat)
    ensures |ip| == 16 ==> v == SetBytes(ip) && v < Pow2(128)
    ensures |ip| != 4 && |ip| != 16 ==> v == 0
  {
    match To16(ip)
    case Some(b) => SetBytes(b)
    case None => 0
  }

  /**
   * bigIntToIP: the shortest big-endian bytes of i, zero-padded on the left.
   * For IPv4 the last four bytes (the low 32 bits of i) become an IPv4
   * address; otherwise the padded bytes are the address, which is exactly the
   * 16-byte encoding of i whenever i is below 2^128.
   */
  function BigIntToIp(i: nat, isIPv4: bool): (ip: IP)
    ensures isIPv4 ==> |ip| == 16 && To4(ip) == Some(FixedBytes(i, 4))
    ensures !isIPv4 ==> |ip| >= 16
    ensures !isIPv4 && i < Pow2(128) ==> ip == FixedBytes(i, 16)
  {
    var b := Bytes(i);
    if isIPv4 then
      var b := LeftPad(b, 4);
      PadKeepsLowBytes(i, 4);
      var n := |b|;
      assert b[n - 4..] == [b[n - 4], b[n - 3], b[n - 2], b[n - 1]];
      IPv4(b[n - 4], b[n - 3], b[n - 2], b[n - 1])
    else
      var ip := LeftPad(b, 16);
      assert i < Pow2(128) ==> ip == FixedBytes(i, 16) by {
        if i < Pow2(128) {
          PadExact(i, 16);
        }
      }
      ip
  }

  // ---------------------------------------------------------------------
  // Round trips

  /** A `uint32` turned into an address and back is the same `uint32`. */
  lemma Uint32RoundTrip(n: U32)
    ensures Ip4ToUint32(Uint32ToIp(n)) == n
  {
    SetBytesFixed(n, 4);
    Pow2Bytes();
    DivModUnique(n, U32Modulus, 0, n);
    assert SetBytes(FixedBytes(n, 4)) == n;
  }

  /** The four octets of an IPv4 address survive the trip through a `uint32`. */
  lemma Ip4RoundTrip(ip: IP)
    requires To4(ip).Some?
    ensures To4(Uint32ToIp(Ip4ToUint32(ip))) == To4(ip)
  {
    FixedSetBytes(To4(ip).value);
  }

  /** A 16-byte address turned into a `big.Int` and back (IPv6 form) is the same 16 bytes. */
  lemma Ip6RoundTrip(ip: IP)
    requires |ip| == 16
    ensures BigIntToIp(IpToBigInt(ip), false) == ip
  {
    FixedSetBytes(ip);
  }

  /** Any value below 2^128 turned into a 16-byte address and back is the same value. */
  lemma BigIntRoundTrip(v: nat)
    requires v < Pow2(128)
    ensures |BigIntToIp(v, false)| == 16
    ensures IpToBigInt(BigIntToIp(v, false)) == v
  {
    SetBytesFixed(v, 16);
    DivModUnique(v, Pow2(128), 0, v);
  }

  /** In its IPv4 form, bigIntToIP agrees with uint32ToIP on the low 32 bits. */
  lemma BigIntToIp4Truncates(i: nat)
    ensures BigIntToIp(i, true) == Uint32ToIp(i % U32Modulus)
  {
    FourBytesOfLow32(i);
    assert V4InV6Prefix + FixedBytes(i, 4) == BigIntToIp(i, true);
  }

  // ---------------------------------------------------------------------
  // Helpers

  /** The four shifted octets do not overlap, so or-ing them is adding them. */
  lemma PackOctets(a: Byte, b: Byte, c: Byte, d: Byte)
    ensures Or(Or(Or(Shl32(a, 24), Shl32(b, 16)), Shl32(c, 8)), d)
         == SetBytes([a, b, c, d])
    ensures SetBytes([a, b, c, d]) < U32Modulus
  {
    Pow2Bytes();
    var hi, mid, lo := a * 0x100_0000, b * 0x1_0000, c * 0x100;
    assert Shl32(a, 24) == hi by {
      DivModUnique(hi, U32Modulus, 0, hi);
    }
    assert Shl32(b, 16) == mid by {
      DivModUnique(mid, U32Modulus, 0, mid);
    }
    assert Shl32(c, 8) == lo by {
      DivModUnique(lo, U32Modulus, 0, lo);
    }
    var q2 := a * 0x100 + b;
    var q3 := q2 * 0x100 + c;
    assert Or(hi, mid) == q2 * 0x1_0000 by {
      OrDisjoint(a, mid, 24);
    }
    assert Or(q2 * 0x1_0000, lo) == q3 * 0x100 by {
      OrDisjoint(q2, lo, 16);
    }
    assert Or(q3 * 0x100, d) == q3 * 0x100 + d by {
      OrDisjoint(q3, d, 8);
    }
    SetBytesFour(a, b, c, d);
  }

  /** The big-endian value of four bytes. */
  lemma SetBytesFour(a: Byte, b: Byte, c: Byte, d: Byte)
    ensures SetBytes([a, b, c, d]) == ((a * 0x100 + b) * 0x100 + c) * 0x100 + d
  {
    var s := [a, b, c, d];
    assert s[..3] == [a, b, c] && s[..3][..2] == [a, b] && s[..3][..2][..1] == [a];
    assert SetBytes([a]) == a;
    assert SetBytes([a, b]) == a * 0x100 + b;
    assert SetBytes([a, b, c]) == (a * 0x100 + b) * 0x100 + c;
  }

  /** Shifting and masking n picks out its four big-endian bytes. */
  lemma UnpackOctets(n: U32)
    ensures FixedBytes(n, 4)
         == [ToByte(Shr(n, 24)), ToByte(And(Shr(n, 16), 0xFF)), ToByte(And(Shr(n, 8), 0xFF)), ToByte(And(n, 0xFF))]
  {
    Pow2Bytes();
    var n1, n2, n3 := n / 0x100, n / 0x1_0000, n / 0x100_0000;
    ModMul(n, 0x100, 0x100);
    ModMul(n, 0x1_0000, 0x100);
    assert n2 == n1 / 0x100 && n3 == n2 / 0x100;
    ShrIsDiv(n, 8);
    ShrIsDiv(n, 16);
    ShrIsDiv(n, 24);
    assert Shr(n, 8) == n1 && Shr(n, 16) == n2 && Shr(n, 24) == n3;
    AndLowOnes(n2, 8, 0xFF);
    AndLowOnes(n1, 8, 0xFF);
    AndLowOnes(n, 8, 0xFF);
    assert And(n2, 0xFF) == n2 % 0x100 && And(n1, 0xFF) == n1 % 0x100 && And(n, 0xFF) == n % 0x100;
    assert n3 < 0x100;
    assert FixedBytes(n3, 1) == [n3 % 0x100];
    assert FixedBytes(n2, 2) == [n3 % 0x100, n2 % 0x100];
    assert FixedBytes(n1, 3) == [n3 % 0x100, n2 % 0x100, n1 % 0x100];
    assert FixedBytes(n, 4) == [n3 % 0x100, n2 % 0x100, n1 % 0x100, n % 0x100];
  }

  /** The last four bytes of a value are the four bytes of its low 32 bits. */
  lemma FourBytesOfLow32(i: nat)
    ensures FixedBytes(i, 4) == FixedBytes(i % U32Modulus, 4)
  {
    var m := i % U32Modulus;
    Pow2Bytes();
    SetBytesFixed(i, 4);
    SetBytesFixed(m, 4);
    DivModUnique(m, U32Modulus, 0, m);
    assert SetBytes(FixedBytes(i, 4)) == SetBytes(FixedBytes(m, 4));
    FixedSetBytes(FixedBytes(i, 4));
    FixedSetBytes(FixedBytes(m, 4));
  }
}
