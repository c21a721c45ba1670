/**
 * src/phy/protocol/mod.rs: the older, unsigned framing used by the Android
 * physical layer. Header and constants are those of src/protocol/mod.rs;
 * there is no signature. The encodable MAC address is the same type as
 * `Protocol.DecodableMacAddr`.
 */
module PhyProtocol {
  import opened Wrappers
  import opened Bytes
  import Protocol

  /**
   * write_binary_message: refused before writing when the length does not fit a
   * u32; otherwise what the newer framing writes for an unsigned message.
   */
  function WriteBinaryMessage(msg: seq<byte>): (r: Result<seq<byte>, Protocol.WriteError>)
    ensures r.Err? <==> |msg| >= 0x1_0000_0000
    ensures r.Ok? ==> r == Protocol.WriteBinaryMessage(msg, None)
  {
    if |msg| >= 0x1_0000_0000 then Err(Protocol.HugeLength)
    else
      var out := BE16(Protocol.Magic) + BE16(Protocol.CurrentVersion) + BE32(|msg|) + msg;
      assert out == Protocol.Header(|msg|) + Protocol.SignatureBytes(None) + msg;
      Ok(out)
  }

  /**
   * read_binary_message: magic, version, length, then the payload; it reads
   * what the newer framing reads when no signature is expected.
   */
  function ReadBinaryMessage(s: seq<byte>): (r: Result<Taken<seq<byte>>, Protocol.ReadError>)
    ensures r.Ok? <==> Protocol.ReadBinaryMessage(s, false).Ok?
    ensures r.Ok? ==>
              r.value.value == Protocol.ReadBinaryMessage(s, false).value.payload &&
              r.value.rest == Protocol.ReadBinaryMessage(s, false).value.rest
    ensures r.Err? ==> r.error == Protocol.ReadBinaryMessage(s, false).error
  {
    var magic := ReadU16(s);
    if magic.None? then Err(Protocol.UnexpectedEof)
    else if magic.value.value != Protocol.Magic then Err(Protocol.WrongMagic)
    else
      var version := ReadU16(magic.value.rest);
      if version.None? then Err(Protocol.UnexpectedEof)
      else if version.value.value != Protocol.CurrentVersion then Err(Protocol.WrongVersion)
      else
        var len := ReadU32(version.value.rest);
        if len.None? then Err(Protocol.UnexpectedEof)
        else if len.value.value == 0 then Ok(Taken([], len.value.rest))
        else
          var payload := ReadExact(len.value.rest, len.value.value);
          if payload.None? then Err(Protocol.UnexpectedEof) else Ok(payload.value)
  }

  /** What write_binary_message writes, read_binary_message reads back, leaving what followed. */
  lemma WriteReadRoundTrip(msg: seq<byte>, tail: seq<byte>)
    requires |msg| < 0x1_0000_0000
    ensures WriteBinaryMessage(msg).Ok?
    ensures ReadBinaryMessage(WriteBinaryMessage(msg).value + tail) == Ok(Taken(msg, tail))
  {
    Protocol.WriteReadRoundTrip(msg, None, tail);
  }

  /** The control message of the physical layer: association by device address. */
  datatype ControlMessage = Associate(addr: Protocol.DecodableMacAddr)
}
