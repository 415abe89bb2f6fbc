/**
 * The pieces of Go's `net` and `math/big` packages that the expander relies
 * on, as byte-sequence functions: an address is a `net.IP` (a slice of 4 or
 * 16 bytes), `big.Int` values are naturals, and byte slices are read and
 * written in big-endian order.
 */
module NetIP {
  import opened GoInts

  datatype Option<T> = None | Some(value: T)

  /** A `net.IP`: 4 bytes (IPv4) or 16 bytes (IPv6 or IPv4-mapped). */
  type IP = seq<Byte>

  /** The twelve bytes that prefix an IPv4 address in its 16-byte form (::ffff:0:0/96). */
  const V4InV6Prefix: seq<Byte> := [0, 0, 0, 0, 0, 0, 0, 0, 0, 0, 0xFF, 0xFF]

  /** `net.IPv4(a, b, c, d)`: always the 16-byte IPv4-mapped form. */
  function IPv4(a: Byte, b: Byte, c: Byte, d: Byte): (ip: IP)
    ensures |ip| == 16
  {
    V4InV6Prefix + [a, b, c, d]
  }

  /** `ip.To4()`: the 4-byte form of an IPv4 or IPv4-mapped address, `nil` otherwise. */
  function To4(ip: IP): (r: Option<IP>)
    ensures r.Some? ==> |r.value| == 4
    ensures r.Some? <==> |ip| == 4 || (|ip| == 16 && ip[..12] == V4InV6Prefix)
  {
    if |ip| == 4 then Some(ip)
    else if |ip| == 16 && ip[..12] == V4InV6Prefix then Some(ip[12..])
    else None
  }

  /** `ip.To16()`: the 16-byte form of a 4- or 16-byte address, `nil` otherwise. */
  function To16(ip: IP): (r: Option<IP>)
    ensures r.Some? <==> |ip| == 4 || |ip| == 16
    ensures r.Some? ==> |r.value| == 16
  {
    if |ip| == 4 then Some(V4InV6Prefix + ip)
    else if |ip| == 16 then Some(ip)
    else None
  }

  /** `new(big.Int).SetBytes(b)`: the big-endian unsigned value of b, below 2^(8|b|). */
  function SetBytes(b: seq<Byte>): (v: nat)
    ensures v < Pow2(8 * |b|)
  {
    if b == [] then 0
    else
      var k := |b| - 1;
      Pow2Add(8, 8 * k);
      assert Pow2(8) == 256;
      SetBytes(b[..k]) * 256 + b[k]
  }

  /** `x.Bytes()`: the shortest big-endian encoding of x (empty for zero), which SetBytes reads back as x. */
  function Bytes(x: nat): (b: seq<Byte>)
    ensures b == [] || b[0] != 0
    ensures SetBytes(b) == x
  {
    if x == 0 then []
    else
      var b := Bytes(x / 256) + [x % 256];
      assert b[..|b| - 1] == Bytes(x / 256);
      b
  }

  /** `n` zero bytes, as `make([]byte, n)` gives them. */
  function Zeros(n: nat): (z: seq<Byte>)
    ensures |z| == n
  {
    seq(n, _ => 0)
  }

  /** The n low bytes of x, most significant first: x mod 2^(8n) in big-endian order. */
  function FixedBytes(x: nat, n: nat): (b: seq<Byte>)
    ensures |b| == n
  {
    if n == 0 then [] else FixedBytes(x / 256, n - 1) + [x % 256]
  }

  /**
   * `net.CIDRMask(ones, 8 * len)`: `len` bytes whose first `ones` bits are
   * one and whose other bits are zero; as a number, 2^(8 len) - 2^(8 len - ones).
   */
  function CidrMask(ones: nat, len: nat): (m: seq<Byte>)
    requires ones <= 8 * len
    ensures |m| == len
    ensures SetBytes(m) == Pow2(8 * len) - Pow2(8 * len - ones)
  {
    if len == 0 then []
    else
      var rest := if ones >= 8 then CidrMask(ones - 8, len - 1) else CidrMask(0, len - 1);
      // A full byte while at least eight ones remain, then ^byte(0xff >> n).
      var first: Byte := if ones >= 8 then 0xFF else 0xFF - Shr(0xFF, ones);
      CidrMaskValue(ones, len, first, rest);
      [first] + rest
  }

  /** The value of a mask built from its first byte and the mask for the remaining bytes. */
  lemma CidrMaskValue(ones: nat, len: nat, first: Byte, rest: seq<Byte>)
    requires 0 < len && ones <= 8 * len && |rest| == len - 1
    requires ones >= 8 ==> first == 0xFF && SetBytes(rest) == Pow2(8 * (len - 1)) - Pow2(8 * len - ones)
    requires ones < 8 ==> first == 0xFF - Shr(0xFF, ones) && SetBytes(rest) == 0
    ensures SetBytes([first] + rest) == Pow2(8 * len) - Pow2(8 * len - ones)
  {
    var k := len - 1;
    var p, P := Pow2(8 * k), Pow2(8 * len);
    Pow2NextByte(len, k);
    var v := SetBytes([first] + rest);
    assert v == first * p + SetBytes(rest) by {
      SetBytesCons(first, rest);
    }
    if ones < 8 {
      MaskByte(ones);
      PartialMaskValue(ones, len, first, p, v);
    } else {
      assert first * p == 255 * p;
    }
  }

  /** The value of a mask whose first byte holds the last ones bits and whose later bytes are zero. */
  lemma PartialMaskValue(ones: nat, len: nat, first: Byte, p: nat, v: nat)
    requires 0 < len && ones < 8 && first == 256 - Pow2(8 - ones)
    requires p == Pow2(8 * (len - 1)) && v == first * p
    ensures v == Pow2(8 * len) - Pow2(8 * len - ones)
  {
    var k := len - 1;
    var q := Pow2(8 - ones);
    Pow2Sum(8 - ones, 8 * k, 8 * len - ones);
    Pow2NextByte(len, k);
    MulSub(256, q, p);
  }

  // ---------------------------------------------------------------------
  // Lemmas

  /** The partial mask byte `^byte(0xff >> n)` for n < 8 is 256 - 2^(8 - n). */
  lemma MaskByte(n: nat)
    requires n < 8
    ensures 0xFF - Shr(0xFF, n) == 256 - Pow2(8 - n)
  {
    ShrIsDiv(0xFF, n);
    assert Pow2(1) == 2 && Pow2(2) == 4 && Pow2(3) == 8 && Pow2(4) == 16;
    assert Pow2(5) == 32 && Pow2(6) == 64 && Pow2(7) == 128 && Pow2(8) == 256;
  }

  /** SetBytes read from the front: the first byte weighs 2^(8(|rest|)). */
  lemma {:induction false} SetBytesCons(c: Byte, rest: seq<Byte>)
    ensures SetBytes([c] + rest) == c * Pow2(8 * |rest|) + SetBytes(rest)
    decreases |rest|
  {
    var s := [c] + rest;
    if rest == [] {
      assert Pow2(0) == 1;
      assert s[..0] == [];
    } else {
      var m := |rest|;
      var k := m - 1;
      var init, d := rest[..k], rest[k];
      var p, P := Pow2(8 * k), Pow2(8 * m);
      Pow2NextByte(m, k);
      var lo := SetBytes(init);
      assert SetBytes([c] + init) == c * p + lo by {
        SetBytesCons(c, init);
      }
      assert SetBytes(s) == SetBytes([c] + init) * 256 + d by {
        assert s[..|s| - 1] == [c] + init;
      }
      assert SetBytes(rest) == lo * 256 + d;
      ConsArith(c, p, lo, d);
    }
  }

  // MulSub and ConsArith keep the nonlinear rearrangements out of the
  // contexts that hold Pow2 terms, where the solver would search far longer.

  lemma MulSub(a: int, b: int, c: int)
    ensures (a - b) * c == a * c - b * c
  {
  }

  lemma ConsArith(c: int, p: int, lo: int, d: int)
    ensures (c * p + lo) * 256 + d == c * (256 * p) + (lo * 256 + d)
  {
  }

  /** A value below 2^(8n) has a shortest encoding of at most n bytes. */
  lemma {:induction false} BytesLength(x: nat, n: nat)
    requires x < Pow2(8 * n)
    ensures |Bytes(x)| <= n
  {
    if x > 0 {
      assert n > 0;
      Pow2Add(8, 8 * (n - 1));
      assert Pow2(8) == 256;
      BytesLength(x / 256, n - 1);
    }
  }

  /** The zero value in n bytes is n zero bytes. */
  lemma {:induction false} FixedBytesZero(n: nat)
    ensures FixedBytes(0, n) == Zeros(n)
  {
    if n > 0 {
      FixedBytesZero(n - 1);
    }
  }

  /** FixedBytes keeps the value modulo 2^(8n). */
  lemma {:induction false} SetBytesFixed(x: nat, n: nat)
    ensures SetBytes(FixedBytes(x, n)) == x % Pow2(8 * n)
  {
    if n == 0 {
      assert Pow2(0) == 1;
    } else {
      var a, k := x / 256, n - 1;
      var b := FixedBytes(x, n);
      var p, P := Pow2(8 * k), Pow2(8 * n);
      Pow2NextByte(n, k);
      assert b[..k] == FixedBytes(a, k);
      assert SetBytes(b) == SetBytes(FixedBytes(a, k)) * 256 + x % 256;
      SetBytesFixed(a, k);
      ModMul(x, 256, p);
    }
  }

  /** Encoding the value of n bytes in n bytes gives the same bytes back. */
  lemma {:induction false} FixedSetBytes(s: seq<Byte>)
    ensures FixedBytes(SetBytes(s), |s|) == s
  {
    if s != [] {
      var k := |s| - 1;
      FixedSetBytes(s[..k]);
      ModAddMultiple(SetBytes(s[..k]), s[k], 256);
      assert s == s[..k] + [s[k]];
    }
  }

  /** Left-padding the shortest encoding to n bytes adds one digit at a time. */
  lemma PadStep(x: nat, n: nat)
    requires x > 0 && n > 0
    ensures LeftPad(Bytes(x), n) == LeftPad(Bytes(x / 256), n - 1) + [x % 256]
  {
    assert Bytes(x) == Bytes(x / 256) + [x % 256];
    PadAppend(Bytes(x / 256), x % 256, n);
  }

  /** Padding a sequence with one more byte at its end pads it one byte further. */
  lemma PadAppend(b: seq<Byte>, d: Byte, n: nat)
    requires n > 0
    ensures LeftPad(b + [d], n) == LeftPad(b, n - 1) + [d]
  {
    if |b| < n - 1 {
      var z := Zeros(n - 1 - |b|);
      assert LeftPad(b + [d], n) == z + (b + [d]);
      assert z + (b + [d]) == (z + b) + [d];
    }
  }

  /** The last n bytes of the shortest encoding, zero-padded to n, are the n low bytes. */
  lemma {:induction false} PadKeepsLowBytes(x: nat, n: nat)
    ensures |LeftPad(Bytes(x), n)| >= n
    ensures LeftPad(Bytes(x), n)[|LeftPad(Bytes(x), n)| - n..] == FixedBytes(x, n)
  {
    var b := LeftPad(Bytes(x), n);
    if x == 0 {
      FixedBytesZero(n);
      assert b == Zeros(n);
    } else if n > 0 {
      var c := LeftPad(Bytes(x / 256), n - 1);
      assert b == c + [x % 256] by {
        PadStep(x, n);
      }
      assert c[|c| - (n - 1)..] == FixedBytes(x / 256, n - 1) by {
        PadKeepsLowBytes(x / 256, n - 1);
      }
      SuffixAppend(c, x % 256, n - 1);
    }
  }

  /** The last m + 1 elements of c + [d] are the last m of c, then d. */
  lemma SuffixAppend(c: seq<Byte>, d: Byte, m: nat)
    requires m <= |c|
    ensures (c + [d])[|c| + 1 - (m + 1)..] == c[|c| - m..] + [d]
  {
  }

  /** A value below 2^(8n), zero-padded to n bytes, is exactly its n-byte encoding. */
  lemma PadExact(x: nat, n: nat)
    requires x < Pow2(8 * n)
    ensures LeftPad(Bytes(x), n) == FixedBytes(x, n)
  {
    BytesLength(x, n);
    PadKeepsLowBytes(x, n);
  }

  /** `append(make([]byte, n - len(b)), b...)` when b is shorter than n. */
  function LeftPad(b: seq<Byte>, n: nat): (r: seq<Byte>)
    ensures |r| == if |b| < n then n else |b|
  {
    if |b| < n then Zeros(n - |b|) + b else b
  }
}
