/**
 * src/protocol/encryption.rs: the nonce sequence of the AES-256-GCM keys. A
 * nonce is the 32-bit counter in big-endian order followed by eight random
 * octets; section 8 of NIST SP 800-38D asks that no nonce repeat under one
 * key, which the counter provides until it wraps.
 */
module Encryption {
  import opened Wrappers
  import opened Bytes
  import opened Utils

  /** ring's NONCE_LEN for AES-GCM. */
  const NonceLen: nat := 12

  /** The nonce for a counter value and the random octets drawn with it. */
  function Nonce(counter: u32, random: Bytes8): (r: seq<byte>)
    ensures |r| == NonceLen && r[..4] == BE32(counter) && r[4..] == random
  {
    BE32(counter) + random
  }

  /** `counter += 1` on a u32, as a release build computes it: the largest value wraps to zero. */
  function Increment(counter: u32): u32 {
    if counter == 0xffff_ffff then 0 else counter + 1
  }

  /** The counter after `n` successful advances of a fresh sequence. */
  function CounterAfter(n: nat): u32 {
    if n == 0 then 0 else Increment(CounterAfter(n - 1))
  }

  /** Until it wraps, the counter is the number of successful advances; then it is zero again. */
  lemma {:induction false} CounterAfterValue(n: nat)
    requires n <= 0x1_0000_0000
    ensures CounterAfter(n) == if n < 0x1_0000_0000 then n else 0
  {
    if n > 0 {
      CounterAfterValue(n - 1);
    }
  }

  /**
   * The first 2^32 successful advances of a sequence put distinct counters, and
   * so distinct four-octet prefixes, in their nonces, whatever the random
   * octets; the next advance repeats the first prefix.
   */
  lemma NoncePrefixesDistinct(i: nat, j: nat, ri: Bytes8, rj: Bytes8)
    requires i < j < 0x1_0000_0000
    ensures Nonce(CounterAfter(i), ri)[..4] != Nonce(CounterAfter(j), rj)[..4]
    ensures Nonce(CounterAfter(0x1_0000_0000), ri)[..4] == Nonce(CounterAfter(0), rj)[..4]
  {
    CounterAfterValue(i);
    CounterAfterValue(j);
    CounterAfterValue(0x1_0000_0000);
    if BE32(i) == BE32(j) {
      BE32Injective(i, j);
    }
  }

  class NonceSequence {
    var counter: u32

    /** default: the counter starts at zero. */
    constructor ()
      ensures counter == 0
    {
      counter := 0;
    }

    /**
     * advance: the counter goes into octets 0 to 3 of a zeroed nonce, `fill`
     * (the system random source, `None` when it fails) into octets 4 to 11;
     * a failed fill returns the error before the counter is incremented.
     */
    method Advance(fill: Option<Bytes8>) returns (r: Option<seq<byte>>)
      modifies this
      ensures fill.None? ==> r.None? && counter == old(counter)
      ensures fill.Some? ==> r == Some(Nonce(old(counter), fill.value)) && counter == Increment(old(counter))
    {
      var nonce := new byte[NonceLen](_ => 0);
      var prefix := BE32(counter);
      forall i | 0 <= i < 4 {
        nonce[i] := prefix[i];
      }
      if fill.None? {
        return None;
      }
      var random := fill.value;
      forall i | 4 <= i < NonceLen {
        nonce[i] := random[i - 4];
      }
      assert nonce[..] == prefix + random;
      counter := Increment(counter);
      r := Some(nonce[..]);
    }
  }
}
