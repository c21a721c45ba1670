/**
 * src/utils.rs: MAC addresses from raw buffers, the modified EUI-64 interface
 * identifier of RFC 4291 Appendix A, the IPv6 link-local address of RFC 4291
 * section 2.5.6 built from it (RFC 4862 section 5.3), and the attempt counting
 * of `retry_timeout`.
 */
module Utils {
  import opened Wrappers
  import opened Bytes

  type Bytes6 = s: seq<byte> | |s| == 6 witness [0, 0, 0, 0, 0, 0]
  type Bytes8 = s: seq<byte> | |s| == 8 witness [0, 0, 0, 0, 0, 0, 0, 0]
  type Bytes16 = s: seq<byte> | |s| == 16 witness seq(16, _ => 0)

  /** A 48-bit or a 64-bit MAC address, as the `macaddr` crate's `MacAddr`. */
  datatype MacAddr = V6(a6: Bytes6) | V8(a8: Bytes8) {
    /** `as_bytes`: the address's octets in order. */
    function AsBytes(): seq<byte> {
      if V6? then a6 else a8
    }
  }

  /** An IPv6 address as its sixteen octets in network order. */
  datatype Ipv6Addr = Ipv6Addr(octets: Bytes16)

  /**
   * to_mac_addr: a 6-byte buffer is a 48-bit address and an 8-byte buffer a
   * 64-bit one, byte order kept; every other length is refused.
   */
  function ToMacAddr(buff: seq<byte>): (r: Option<MacAddr>)
    ensures r.None? <==> |buff| != 6 && |buff| != 8
    ensures r.Some? ==> r.value.AsBytes() == buff && (r.value.V8? <==> |buff| == 8)
  {
    if |buff| != 6 && |buff| != 8 then None
    else if |buff| == 6 then Some(V6(buff))
    else Some(V8(buff))
  }

  /** Reading back the bytes of an address gives the same address. */
  lemma ToMacAddrOfBytes(m: MacAddr)
    ensures ToMacAddr(m.AsBytes()) == Some(m)
  {
  }

  /**
   * to_eui64: a 64-bit address is already an EUI-64; a 48-bit one gets 0xff 0xfe
   * inserted between its third and fourth octets.
   */
  function ToEui64(m: MacAddr): (r: Bytes8)
    ensures m.V8? ==> r == m.a8
    ensures m.V6? ==> r[..3] == m.a6[..3] && r[3] == 0xff && r[4] == 0xfe && r[5..] == m.a6[3..]
  {
    match m
    case V6(a) => [a[0], a[1], a[2], 0xff, 0xfe, a[3], a[4], a[5]]
    case V8(a) => a
  }

  /** Two addresses of the same width with the same EUI-64 are the same address. */
  lemma Eui64Injective(m: MacAddr, n: MacAddr)
    requires m.V6? == n.V6? && ToEui64(m) == ToEui64(n)
    ensures m == n
  {
    if m.V6? {
      var e := ToEui64(m);
      assert m.a6 == e[..3] + e[5..];
      assert n.a6 == e[..3] + e[5..];
    }
  }

  /** The link-local prefix fe80::/64: fe 80 followed by six zero octets. */
  const LinkLocalPrefix: seq<byte> := [0xfe, 0x80, 0, 0, 0, 0, 0, 0]

  /** The modified EUI-64 interface identifier: the universal/local bit of the first octet flipped. */
  function InterfaceIdentifier(eui64: Bytes8): (r: Bytes8)
    ensures r[0] == ByteXor(eui64[0], 0x02) && r[1..] == eui64[1..]
  {
    [ByteXor(eui64[0], 0x02)] + eui64[1..]
  }

  /** The link-local address of a MAC: the prefix, then the interface identifier. */
  function LinkLocalAddress(m: MacAddr): (r: Ipv6Addr)
    ensures r.octets[..8] == LinkLocalPrefix
    ensures r.octets[8..] == InterfaceIdentifier(ToEui64(m))
  {
    Ipv6Addr(LinkLocalPrefix + InterfaceIdentifier(ToEui64(m)))
  }

  /**
   * mac_addr_to_local_link_address: fills a zeroed sixteen-octet buffer with
   * fe 80 in octets 0 and 1 and the interface identifier in octets 8 to 15.
   */
  method MacAddrToLocalLinkAddress(m: MacAddr) returns (addr: Ipv6Addr)
    ensures addr == LinkLocalAddress(m)
  {
    var a := new byte[16](_ => 0);
    var id := InterfaceIdentifier(ToEui64(m));
    a[0] := 0xfe;
    a[1] := 0x80;
    forall i | 8 <= i < 16 {
      a[i] := id[i - 8];
    }
    assert a[..] == LinkLocalPrefix + id;
    addr := Ipv6Addr(a[..]);
  }

  /** The interface identifier gives back the EUI-64 it came from. */
  lemma InterfaceIdentifierInverse(eui64: Bytes8)
    ensures var id := InterfaceIdentifier(eui64);
            [ByteXor(id[0], 0x02)] + id[1..] == eui64
  {
    XorSelfInverse(eui64[0], 0x02);
  }

  /**
   * Distinct MACs of the same width get distinct link-local addresses: flipping
   * one bit and copying octets loses nothing.
   */
  lemma LinkLocalAddressInjective(m: MacAddr, n: MacAddr)
    requires m.V6? == n.V6? && LinkLocalAddress(m) == LinkLocalAddress(n)
    ensures m == n
  {
    var em, en := ToEui64(m), ToEui64(n);
    assert InterfaceIdentifier(em) == LinkLocalAddress(m).octets[8..];
    InterfaceIdentifierInverse(em);
    InterfaceIdentifierInverse(en);
    assert em == en;
    Eui64Injective(m, n);
  }

  /**
   * The address lies in fe80::/10, and its universal/local bit (bit 1 of octet 8)
   * is the opposite of the EUI-64's.
   */
  lemma LinkLocalAddressScope(m: MacAddr)
    ensures var a := LinkLocalAddress(m).octets;
            a[0] == 0xfe && a[1] / 0x40 == 2 &&
            (a[8] / 2) % 2 != (ToEui64(m)[0] / 2) % 2
  {
    var a := LinkLocalAddress(m).octets;
    assert a[..8] == LinkLocalPrefix;
    assert a[0] == 0xfe && a[1] == 0x80;
    FlipBitOne(ToEui64(m)[0]);
  }

  /**
   * retry_timeout: `attempt(i)` is what the `i`-th call of the closure yields.
   * The first success is returned; after `count` failures the last error is.
   * The sleep between attempts is not modelled.
   */
  method RetryTimeout<T, E>(count: nat, attempt: nat -> Result<T, E>) returns (r: Result<T, E>, attempts: nat)
    requires count > 0
    ensures 1 <= attempts <= count
    ensures r == attempt(attempts - 1)
    ensures forall i :: 0 <= i < attempts - 1 ==> attempt(i).Err?
    ensures r.Err? ==> attempts == count
  {
    var left := count;
    attempts := 0;
    while true
      invariant 0 < left && attempts + left == count
      invariant forall i :: 0 <= i < attempts ==> attempt(i).Err?
      decreases left
    {
      r := attempt(attempts);
      attempts := attempts + 1;
      if r.Ok? {
        return;
      }
      left := left - 1;
      if left == 0 {
        return;
      }
    }
  }
}
