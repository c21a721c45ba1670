/**
 * Octets and the few operations on them the networking code relies on: the
 * bitwise exclusive or, and the big-endian 16- and 32-bit fields that tokio's
 * `read_u16`/`read_u32`/`write_u16`/`write_u32` and `u32::to_be_bytes` produce
 * and consume.
 */
module Bytes {
  import opened Wrappers

  type byte = x: int | 0 <= x < 256

  /** A 16-bit and a 32-bit unsigned integer, as Rust's `u16` and `u32`. */
  type u16 = x: int | 0 <= x < 0x1_0000
  type u32 = x: int | 0 <= x < 0x1_0000_0000

  /** Bitwise exclusive or of two naturals, from the least significant bit up. */
  function Xor(a: nat, b: nat): nat
    decreases a + b
  {
    if a == 0 && b == 0 then 0 else 2 * Xor(a / 2, b / 2) + (a % 2 + b % 2) % 2
  }

  predicate PowerOfTwo(m: nat)
    decreases m
  {
    m == 1 || (m > 1 && m % 2 == 0 && PowerOfTwo(m / 2))
  }

  /** Exclusive or never sets a bit above the highest bit of its operands. */
  lemma {:induction false} XorBelow(a: nat, b: nat, m: nat)
    requires PowerOfTwo(m) && a < m && b < m
    ensures Xor(a, b) < m
    decreases m
  {
    if m > 1 {
      XorBelow(a / 2, b / 2, m / 2);
    }
  }

  lemma {:induction false} XorZero(a: nat)
    ensures Xor(a, 0) == a
    decreases a
  {
    if a != 0 {
      XorZero(a / 2);
    }
  }

  /** A natural is twice its upper bits plus its low bit, and that split is unique. */
  lemma HalveTwice(x: nat, t: nat)
    requires t < 2
    ensures (2 * x + t) / 2 == x && (2 * x + t) % 2 == t
  {
  }

  /** Adding the same bit twice, modulo 2, gives the first bit back. */
  lemma ParityCancel(i: nat, j: nat)
    requires i < 2 && j < 2
    ensures ((i + j) % 2 + j) % 2 == i
  {
  }

  /** The low bit of an exclusive or, and the exclusive or of the bits above it. */
  lemma XorSplit(a: nat, b: nat)
    ensures Xor(a, b) % 2 == (a % 2 + b % 2) % 2
    ensures Xor(a, b) / 2 == Xor(a / 2, b / 2)
  {
    HalveTwice(Xor(a / 2, b / 2), (a % 2 + b % 2) % 2);
  }

  /** Exclusive or with the same operand twice gives the original back. */
  lemma {:induction false} XorSelfInverse(a: nat, b: nat)
    ensures Xor(Xor(a, b), b) == a
    decreases a + b
  {
    if a != 0 || b != 0 {
      var c := Xor(a, b);
      XorSplit(a, b);
      XorSelfInverse(a / 2, b / 2);
      if c == 0 && b == 0 {
        XorZero(a);
      } else {
        XorSplit(c, b);
        var r := Xor(c, b);
        assert r / 2 == Xor(Xor(a / 2, b / 2), b / 2) == a / 2;
        ParityCancel(a % 2, b % 2);
        assert r % 2 == ((a % 2 + b % 2) % 2 + b % 2) % 2 == a % 2;
        assert r == 2 * (r / 2) + r % 2 && a == 2 * (a / 2) + a % 2;
      }
    }
  }

  /** The exclusive or of two bytes is a byte. */
  function ByteXor(a: byte, b: byte): (r: byte)
    ensures Xor(a, b) == r
  {
    assert PowerOfTwo(256);
    XorBelow(a, b, 256);
    Xor(a, b)
  }

  /** Exclusive or with 0x02 flips bit 1 and leaves every other bit alone. */
  lemma FlipBitOne(x: byte)
    ensures ByteXor(x, 0x02) == if (x / 2) % 2 == 0 then x + 2 else x - 2
  {
    var y := x / 2;
    assert Xor(x, 2) == 2 * Xor(y, 1) + x % 2;
    XorZero(y / 2);
    assert Xor(y, 1) == 2 * Xor(y / 2, 0) + (y % 2 + 1) % 2;
  }

  /** Big-endian encodings of a `u16` and a `u32`. */
  function BE16(n: u16): (r: seq<byte>)
    ensures |r| == 2
  {
    [n / 0x100, n % 0x100]
  }

  function BE32(n: u32): (r: seq<byte>)
    ensures |r| == 4
  {
    [n / 0x100_0000, (n / 0x1_0000) % 0x100, (n / 0x100) % 0x100, n % 0x100]
  }

  /** The value of two or four bytes read as a big-endian integer. */
  function FromBE16(s: seq<byte>): (r: u16)
    requires |s| == 2
    ensures BE16(r) == s
  {
    s[0] as int * 0x100 + s[1] as int
  }

  function FromBE32(s: seq<byte>): (r: u32)
    requires |s| == 4
    ensures BE32(r) == s
  {
    var hi: int := FromBE16(s[..2]);
    var lo: int := FromBE16(s[2..]);
    SplitU32(hi, lo);
    assert s == s[..2] + s[2..];
    hi * 0x1_0000 + lo
  }

  /** A `u32` is its high and its low `u16`, each in big-endian order. */
  lemma SplitU32(hi: u16, lo: u16)
    ensures BE32(hi * 0x1_0000 + lo) == BE16(hi) + BE16(lo)
  {
    var n := hi * 0x1_0000 + lo;
    assert n / 0x100 == hi * 0x100 + lo / 0x100;
    assert n / 0x1_0000 == hi;
    assert n / 0x100_0000 == hi / 0x100;
  }

  lemma BE16RoundTrip(n: u16)
    ensures FromBE16(BE16(n)) == n
  {
  }

  lemma BE32RoundTrip(n: u32)
    ensures FromBE32(BE32(n)) == n
  {
    var hi := n / 0x1_0000;
    var lo := n % 0x1_0000;
    SplitU32(hi, lo);
    BE16RoundTrip(hi);
    BE16RoundTrip(lo);
    assert (BE16(hi) + BE16(lo))[..2] == BE16(hi);
    assert (BE16(hi) + BE16(lo))[2..] == BE16(lo);
  }

  /** Distinct values have distinct big-endian encodings. */
  lemma BE32Injective(m: u32, n: u32)
    requires BE32(m) == BE32(n)
    ensures m == n
  {
    BE32RoundTrip(m);
    BE32RoundTrip(n);
  }

  /** A value read off the front of a byte stream, and what remains of the stream. */
  datatype Taken<T> = Taken(value: T, rest: seq<byte>)

  /** `read_u16`: two bytes, or nothing when the stream ends first. */
  function ReadU16(s: seq<byte>): (r: Option<Taken<u16>>)
    ensures r.Some? <==> |s| >= 2
    ensures r.Some? ==> s == BE16(r.value.value) + r.value.rest
  {
    if |s| < 2 then None else Some(Taken(FromBE16(s[..2]), s[2..]))
  }

  /** `read_u32`: four bytes, or nothing when the stream ends first. */
  function ReadU32(s: seq<byte>): (r: Option<Taken<u32>>)
    ensures r.Some? <==> |s| >= 4
    ensures r.Some? ==> s == BE32(r.value.value) + r.value.rest
  {
    if |s| < 4 then None else Some(Taken(FromBE32(s[..4]), s[4..]))
  }

  /** `read_exact` of `n` bytes, or nothing when the stream ends first. */
  function ReadExact(s: seq<byte>, n: nat): (r: Option<Taken<seq<byte>>>)
    ensures r.Some? <==> |s| >= n
    ensures r.Some? ==> |r.value.value| == n && s == r.value.value + r.value.rest
  {
    if |s| < n then None else Some(Taken(s[..n], s[n..]))
  }

  /** What `write_u16` writes is read back by `read_u16`, leaving what followed. */
  lemma ReadU16Written(n: u16, tail: seq<byte>)
    ensures ReadU16(BE16(n) + tail) == Some(Taken(n, tail))
  {
    var s := BE16(n) + tail;
    assert s[..2] == BE16(n) && s[2..] == tail;
    BE16RoundTrip(n);
  }

  lemma ReadU32Written(n: u32, tail: seq<byte>)
    ensures ReadU32(BE32(n) + tail) == Some(Taken(n, tail))
  {
    var s := BE32(n) + tail;
    assert s[..4] == BE32(n) && s[4..] == tail;
    BE32RoundTrip(n);
  }

  lemma ReadExactWritten(b: seq<byte>, tail: seq<byte>)
    ensures ReadExact(b + tail, |b|) == Some(Taken(b, tail))
  {
    assert (b + tail)[..|b|] == b && (b + tail)[|b|..] == tail;
  }
}
