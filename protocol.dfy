/**
 * src/protocol/mod.rs: the binary framing of the IPv6 protocol and the
 * records the platform sessions keep about peers and groups.
 *
 * A frame is a header (magic 0xdead, version 1, the payload length as a u32,
 * all big-endian), then a 64-byte Ed25519 signature when the message is a
 * peer message, then the payload. Streams are byte sequences; reading returns
 * what follows the frame.
 */
module Protocol {
  import opened Wrappers
  import opened Bytes
  import opened Utils
  import opened Identity
  import opened Handles

  const Magic: u16 := 0xdead
  const CurrentVersion: u16 := 1
  /** identity.rs: SIGNATURE_LEN, the length of an Ed25519 signature. */
  const SignatureLen: nat := 64

  type Signature = s: seq<byte> | |s| == SignatureLen witness seq(64, _ => 0)

  datatype ReadError = UnexpectedEof | WrongMagic | WrongVersion
  datatype WriteError = HugeLength

  /** A frame read off a stream: its payload, its signature when one was read, and the rest of the stream. */
  datatype Frame = Frame(payload: seq<byte>, signature: Option<Signature>, rest: seq<byte>)

  /** The eight header bytes for a payload of `len` bytes. */
  function Header(len: u32): (r: seq<byte>)
    ensures |r| == 8
  {
    BE16(Magic) + BE16(CurrentVersion) + BE32(len)
  }

  function SignatureBytes(signature: Option<Signature>): (r: seq<byte>)
    ensures |r| == if signature.Some? then SignatureLen else 0
  {
    if signature.Some? then signature.value else []
  }

  /**
   * write_binary_message: a payload whose length does not fit a u32 is refused
   * before anything is written; otherwise the header, the signature when a key
   * is given, and the payload.
   */
  function WriteBinaryMessage(msg: seq<byte>, signature: Option<Signature>): (r: Result<seq<byte>, WriteError>)
    ensures r.Err? <==> |msg| >= 0x1_0000_0000
    ensures r.Ok? ==>
              var n := |SignatureBytes(signature)|;
              |r.value| == 8 + n + |msg| &&
              r.value[..4] == [0xde, 0xad, 0x00, 0x01] &&
              FromBE32(r.value[4..8]) == |msg| &&
              r.value[8..8 + n] == SignatureBytes(signature) &&
              r.value[8 + n..] == msg
  {
    if |msg| >= 0x1_0000_0000 then Err(HugeLength)
    else
      var out := Header(|msg|) + SignatureBytes(signature) + msg;
      BE32RoundTrip(|msg|);
      assert out[4..8] == BE32(|msg|);
      Ok(out)
  }

  /** The signature of a peer message, read right after the header. */
  function ReadSignature(s: seq<byte>, signed: bool): (r: Option<Taken<Option<Signature>>>)
    ensures r.Some? <==> !signed || |s| >= SignatureLen
    ensures r.Some? ==> (r.value.value.Some? <==> signed) && s == SignatureBytes(r.value.value) + r.value.rest
  {
    if !signed then Some(Taken(None, s))
    else
      var t := ReadExact(s, SignatureLen);
      if t.None? then None
      else
        var signature: Signature := t.value.value;
        Some(Taken(Some(signature), t.value.rest))
  }

  /**
   * The header: the magic is checked before the version is read, and the
   * version before the length is read.
   */
  function ReadHeader(s: seq<byte>): (r: Result<Taken<u32>, ReadError>)
    ensures |s| < 2 ==> r == Err(UnexpectedEof)
    ensures |s| >= 2 && FromBE16(s[..2]) != Magic ==> r == Err(WrongMagic)
    ensures |s| >= 4 && FromBE16(s[..2]) == Magic && FromBE16(s[2..4]) != CurrentVersion ==>
              r == Err(WrongVersion)
    ensures r.Ok? ==> s == Header(r.value.value) + r.value.rest
  {
    var magic := ReadU16(s);
    if magic.None? then Err(UnexpectedEof)
    else if magic.value.value != Magic then Err(WrongMagic)
    else
      var version := ReadU16(magic.value.rest);
      assert |s| >= 4 ==> magic.value.rest[..2] == s[2..4];
      if version.None? then Err(UnexpectedEof)
      else if version.value.value != CurrentVersion then Err(WrongVersion)
      else
        var len := ReadU32(version.value.rest);
        if len.None? then Err(UnexpectedEof)
        else Ok(len.value)
  }

  /** What follows the header: the signature when one is expected, then `len` bytes of payload. */
  function ReadBody(s: seq<byte>, len: u32, signed: bool): (r: Option<Frame>)
    ensures r.Some? ==>
              (r.value.signature.Some? <==> signed) && |r.value.payload| == len &&
              s == SignatureBytes(r.value.signature) + r.value.payload + r.value.rest
  {
    var sig := ReadSignature(s, signed);
    if sig.None? then None
    else if len == 0 then Some(Frame([], sig.value.value, sig.value.rest))
    else
      var payload := ReadExact(sig.value.rest, len);
      if payload.None? then None
      else Some(Frame(payload.value.value, sig.value.value, payload.value.rest))
  }

  /**
   * read_binary_message: the header, then the signature if one is asked for,
   * read even when the length is zero, then the payload.
   */
  function ReadBinaryMessage(s: seq<byte>, signed: bool): (r: Result<Frame, ReadError>)
    ensures ReadHeader(s).Err? ==> r == Err(ReadHeader(s).error)
    ensures r.Ok? ==>
              (r.value.signature.Some? <==> signed) &&
              |r.value.payload| < 0x1_0000_0000 &&
              s == Header(|r.value.payload|) + (SignatureBytes(r.value.signature) + r.value.payload + r.value.rest)
  {
    var header := ReadHeader(s);
    if header.Err? then Err(header.error)
    else
      var body := ReadBody(header.value.rest, header.value.value, signed);
      if body.None? then Err(UnexpectedEof) else Ok(body.value)
  }

  /** A header followed by anything: its length field, and what follows it. */
  lemma HeaderFields(len: u32, rest: seq<byte>)
    ensures var s := Header(len) + rest;
            s[..4] == [0xde, 0xad, 0x00, 0x01] && s[4..8] == BE32(len) && FromBE32(s[4..8]) == len &&
            s[8..] == rest
  {
    BE32RoundTrip(len);
  }

  /** A signature, a payload and what follows, after a header. */
  lemma SignedLayout(len: u32, signature: Signature, payload: seq<byte>, rest: seq<byte>)
    ensures var s := Header(len) + (signature + payload + rest);
            |s| >= 8 + SignatureLen && FromBE32(s[4..8]) == len &&
            s[8..8 + SignatureLen] == signature && s[8 + SignatureLen..] == payload + rest
  {
    var body := signature + payload + rest;
    HeaderFields(len, body);
    assert body[..SignatureLen] == signature && body[SignatureLen..] == payload + rest;
  }

  /** What follows a header, when it was written for the payload and signature, is read back as them. */
  lemma ReadBodyWritten(msg: seq<byte>, signature: Option<Signature>, tail: seq<byte>)
    requires |msg| < 0x1_0000_0000
    ensures ReadBody(SignatureBytes(signature) + msg + tail, |msg|, signature.Some?) == Some(Frame(msg, signature, tail))
  {
    var sb := SignatureBytes(signature);
    assert sb + msg + tail == sb + (msg + tail);
    ReadExactWritten(sb, msg + tail);
    ReadExactWritten(msg, tail);
  }

  /** The header written for a length is read back as that length. */
  lemma ReadHeaderWritten(len: u32, rest: seq<byte>)
    ensures ReadHeader(Header(len) + rest) == Ok(Taken(len, rest))
  {
    var afterVersion := BE32(len) + rest;
    var afterMagic := BE16(CurrentVersion) + afterVersion;
    assert Header(len) + rest == BE16(Magic) + afterMagic;
    ReadU16Written(Magic, afterMagic);
    ReadU16Written(CurrentVersion, afterVersion);
    ReadU32Written(len, rest);
  }

  /** What write_binary_message writes, read_binary_message reads back, leaving what followed. */
  lemma {:induction false} WriteReadRoundTrip(msg: seq<byte>, signature: Option<Signature>, tail: seq<byte>)
    requires |msg| < 0x1_0000_0000
    ensures WriteBinaryMessage(msg, signature).Ok?
    ensures ReadBinaryMessage(WriteBinaryMessage(msg, signature).value + tail, signature.Some?) ==
            Ok(Frame(msg, signature, tail))
  {
    var body := SignatureBytes(signature) + msg + tail;
    var written := Header(|msg|) + SignatureBytes(signature) + msg;
    assert WriteBinaryMessage(msg, signature) == Ok(written);
    assert written + tail == Header(|msg|) + body;
    ReadHeaderWritten(|msg|, body);
    ReadBodyWritten(msg, signature, tail);
  }

  /**
   * A peer message with a zero length still has its signature read: with fewer
   * than 64 bytes after the header the stream ends too early, while the same
   * bytes read as a control message give an empty payload.
   */
  lemma ZeroLengthReadsSignatureFirst(tail: seq<byte>)
    requires |tail| < SignatureLen
    ensures ReadBinaryMessage(Header(0) + tail, true) == Err(UnexpectedEof)
    ensures ReadBinaryMessage(Header(0) + tail, false) == Ok(Frame([], None, tail))
  {
    ReadHeaderWritten(0, tail);
  }

  /** Why reading a control message failed. */
  datatype ControlError = Framing(error: ReadError) | Undecodable | InvalidLength

  /**
   * read_control_message: an unsigned frame whose payload decodes, through
   * `decode` (bincode's decode_from_slice, which yields the value and how many
   * bytes it used), to a value that uses the whole payload.
   */
  function ReadControlMessage<M>(s: seq<byte>, decode: seq<byte> -> Option<(M, nat)>): (r: Result<Taken<M>, ControlError>)
    ensures ReadBinaryMessage(s, false).Err? ==> r == Err(Framing(ReadBinaryMessage(s, false).error))
    ensures ReadBinaryMessage(s, false).Ok? ==>
              var f := ReadBinaryMessage(s, false).value;
              (decode(f.payload).None? ==> r == Err(Undecodable)) &&
              (decode(f.payload).Some? && decode(f.payload).value.1 != |f.payload| ==> r == Err(InvalidLength)) &&
              (r.Ok? ==> decode(f.payload) == Some((r.value.value, |f.payload|)) && r.value.rest == f.rest)
    ensures r.Ok? ==> ReadBinaryMessage(s, false).Ok?
  {
    var frame := ReadBinaryMessage(s, false);
    if frame.Err? then Err(Framing(frame.error))
    else
      var decoded := decode(frame.value.payload);
      if decoded.None? then Err(Undecodable)
      else if decoded.value.1 != |frame.value.payload| then Err(InvalidLength)
      else Ok(Taken(decoded.value.0, frame.value.rest))
  }

  /** A control message whose encoding decodes exactly to it is read back from what was written. */
  lemma ControlMessageRoundTrip<M>(m: M, encoded: seq<byte>, decode: seq<byte> -> Option<(M, nat)>, tail: seq<byte>)
    requires |encoded| < 0x1_0000_0000 && decode(encoded) == Some((m, |encoded|))
    ensures ReadControlMessage(WriteBinaryMessage(encoded, None).value + tail, decode) == Ok(Taken(m, tail))
  {
    WriteReadRoundTrip(encoded, None, tail);
  }

  /** Why reading a peer message failed. */
  datatype PeerReadError = PeerFraming(error: ReadError) | BadSignature

  /**
   * read_peer_message: a signed frame whose signature `verify` (Ed25519
   * verification under the peer's key) accepts for the payload alone. The
   * signature sits between the header and the payload and is not counted in
   * the length.
   */
  function ReadPeerMessage(s: seq<byte>, key: PublicKeyBytes,
                           verify: (PublicKeyBytes, Signature, seq<byte>) -> bool): (r: Result<Taken<seq<byte>>, PeerReadError>)
    ensures ReadBinaryMessage(s, true).Err? ==> r == Err(PeerFraming(ReadBinaryMessage(s, true).error))
    ensures r.Ok? ==>
              |s| >= 8 + SignatureLen &&
              FromBE32(s[4..8]) == |r.value.value| &&
              verify(key, s[8..8 + SignatureLen], r.value.value) &&
              s[8 + SignatureLen..] == r.value.value + r.value.rest
    ensures ReadBinaryMessage(s, true).Ok? &&
            !verify(key, ReadBinaryMessage(s, true).value.signature.value, ReadBinaryMessage(s, true).value.payload) ==>
              r == Err(BadSignature)
  {
    var frame := ReadBinaryMessage(s, true);
    if frame.Err? then Err(PeerFraming(frame.error))
    else if !verify(key, frame.value.signature.value, frame.value.payload) then Err(BadSignature)
    else
      var f := frame.value;
      SignedLayout(|f.payload|, f.signature.value, f.payload, f.rest);
      Ok(Taken(f.payload, f.rest))
  }

  /** A message signed for its payload is read back with that payload, leaving what followed. */
  lemma PeerMessageRoundTrip(msg: seq<byte>, signature: Signature, key: PublicKeyBytes,
                             verify: (PublicKeyBytes, Signature, seq<byte>) -> bool, tail: seq<byte>)
    requires |msg| < 0x1_0000_0000 && verify(key, signature, msg)
    ensures ReadPeerMessage(WriteBinaryMessage(msg, Some(signature)).value + tail, key, verify) == Ok(Taken(msg, tail))
  {
    WriteReadRoundTrip(msg, Some(signature), tail);
  }

  /** The ports a peer listens on. */
  datatype P2pPorts = P2pPorts(control: u16, p2p: u16)

  type Bytes4 = s: seq<byte> | |s| == 4 witness [0, 0, 0, 0]

  datatype IpAddr = V4(v4: Bytes4) | V6(v6: Ipv6Addr)

  datatype SocketAddr =
    | SocketV4(ip4: Bytes4, port: u16)
    | SocketV6(ip6: Ipv6Addr, port: u16, flowinfo: u32, scopeId: u32)
  {
    function Ip(): IpAddr {
      if SocketV4? then IpAddr.V4(ip4) else IpAddr.V6(ip6)
    }
  }

  /**
   * peer_to_socket_addr: the address and the port; an IPv6 address also gets
   * the interface's scope id and a zero flow label, while an IPv4 one has no
   * place for the scope id.
   */
  function PeerToSocketAddr(addr: IpAddr, scopeId: u32, port: u16): (r: SocketAddr)
    ensures r.Ip() == addr && r.port == port
    ensures r.SocketV6? <==> addr.V6?
    ensures r.SocketV6? ==> r.flowinfo == 0 && r.scopeId == scopeId
  {
    match addr
    case V4(a) => SocketV4(a, port)
    case V6(a) => SocketV6(a, port, 0, scopeId)
  }

  /** Two IPv4 sockets for the same address and port are equal whatever scope ids were passed. */
  lemma PeerToSocketAddrIgnoresScopeForV4(addr: IpAddr, scope1: u32, scope2: u32, port: u16)
    requires addr.V4?
    ensures PeerToSocketAddr(addr, scope1, port) == PeerToSocketAddr(addr, scope2, port)
  {
  }

  /**
   * The encodable MAC address, the same in src/protocol/mod.rs and
   * src/phy/protocol/mod.rs: the width and eight octets, of which a 48-bit
   * address uses the first six.
   */
  datatype DecodableMacAddr = DecodableMacAddr(isV8: bool, bytes: Bytes8) {
    /** to_mac_addr: the first six octets, or all eight for a 64-bit address. */
    function ToMacAddr(): (r: MacAddr)
      ensures r.V8? <==> isV8
      ensures r.AsBytes() == if isV8 then bytes else bytes[..6]
    {
      Utils.ToMacAddr(if isV8 then bytes else bytes[..6]).value
    }
  }

  /** The encoding `From<MacAddr>` builds: the octets, then zeros up to eight. */
  function Decodable(m: MacAddr): DecodableMacAddr {
    var b := m.AsBytes();
    DecodableMacAddr(m.V8?, b + seq(8 - |b|, _ => 0))
  }

  /** From<MacAddr>: a zeroed eight-octet array with the address copied into its front. */
  method FromMacAddr(m: MacAddr) returns (d: DecodableMacAddr)
    ensures d == Decodable(m)
  {
    var b := m.AsBytes();
    var a := new byte[8](_ => 0);
    forall i | 0 <= i < |b| {
      a[i] := b[i];
    }
    assert a[..] == b + seq(8 - |b|, _ => 0);
    d := DecodableMacAddr(m.V8?, a[..]);
  }

  /** Encoding and decoding give the address back; a 48-bit address leaves octets 6 and 7 zero. */
  lemma DecodableMacAddrRoundTrip(m: MacAddr)
    ensures Decodable(m).ToMacAddr() == m
    ensures m.V6? ==> Decodable(m).bytes[6] == 0 && Decodable(m).bytes[7] == 0
  {
    var d := Decodable(m);
    assert d.bytes[..|m.AsBytes()|] == m.AsBytes();
  }

  /** An encoding with zero padding is the encoding of the address it decodes to. */
  lemma DecodableMacAddrCanonical(d: DecodableMacAddr)
    requires !d.isV8 ==> d.bytes[6] == 0 && d.bytes[7] == 0
    ensures Decodable(d.ToMacAddr()) == d
  {
    if !d.isV8 {
      assert d.bytes == d.bytes[..6] + seq(2, _ => 0);
    }
  }

  /** A peer's self-reported identifier: its device name or its device address. */
  datatype PeerOwnIdentifier = Name(name: string) | DevAddr(addr: DecodableMacAddr)

  /** PhysiscalPeerIdentity: the device name and the P2P device address. */
  datatype PhysicalPeerIdentity = PhysicalPeerIdentity(name: string, devAddr: MacAddr) {
    /** matches: whether this device is the one a peer reported itself as. */
    predicate Matches(ownId: PeerOwnIdentifier) {
      match ownId
      case Name(n) => name == n
      case DevAddr(a) => devAddr == a.ToMacAddr()
    }
  }

  /**
   * A device matches what it truthfully reports about itself, and a reported
   * device address matches exactly the device with that address.
   */
  lemma MatchesOwnReport(id: PhysicalPeerIdentity, m: MacAddr)
    ensures id.Matches(Name(id.name))
    ensures id.Matches(DevAddr(Decodable(m))) <==> id.devAddr == m
  {
    DecodableMacAddrRoundTrip(m);
  }

  /** A peer identity: the device, and the logical identity once it has associated. */
  datatype PeerIdentity = PeerIdentity(physical: PhysicalPeerIdentity, logical: Option<LogicalPeerIdentity>)

  /** PeerInfo: the identity, the groups the peer is connected to, and back-end data. */
  datatype PeerInfo<D> = PeerInfo(identity: PeerIdentity, groups: seq<GroupId>, data: D)

  datatype PeerAddress = PeerAddress(address: IpAddr, ports: P2pPorts)

  /** PeerGroupInfo: a peer's address within one group. */
  datatype PeerGroupInfo = PeerGroupInfo(address: PeerAddress)

  /**
   * GroupInfo: the group owner's address, the interface's name and scope id,
   * whether this device owns the group, the peers in it with their addresses,
   * and back-end data. The connection task is not modelled.
   */
  datatype GroupInfo<D> = GroupInfo(goIpAddress: IpAddr, ifaceName: string, scopeId: u32, isGo: bool,
                                    peers: map<PeerId, PeerGroupInfo>, data: D)

  /** The control message of the IPv6 protocol. */
  datatype ControlMessage = Associate(physicalId: PeerOwnIdentifier, logicalId: LogicalPeerIdentity, ports: P2pPorts)
}
