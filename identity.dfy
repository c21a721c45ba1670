/**
 * src/protocol/identity.rs: a user's own identity, the logical identity peers
 * know it by, and how both are displayed: the nickname, `#`, and the first
 * three octets of the public key in lowercase hexadecimal.
 */
module Identity {
  import opened Bytes

  /** Ed25519 public keys are 32 octets. */
  const PublicKeyLen: nat := 32

  type PublicKeyBytes = s: seq<byte> | |s| == PublicKeyLen witness seq(32, _ => 0)

  /** What a peer knows of a user: the nickname and the Ed25519 public key. */
  datatype LogicalPeerIdentity = LogicalPeerIdentity(nickname: string, key: PublicKeyBytes)

  /** A user's own identity; of its key pair only the public half is modelled. */
  datatype OwnIdentity = OwnIdentity(nickname: string, publicKey: PublicKeyBytes)

  /** to_public: the nickname and the public key, copied. */
  function ToPublic(own: OwnIdentity): (r: LogicalPeerIdentity)
    ensures r.nickname == own.nickname && r.key == own.publicKey
  {
    LogicalPeerIdentity(own.nickname, own.publicKey)
  }

  /** The lowercase hexadecimal digit of a value below 16. */
  function HexDigit(n: nat): (c: char)
    requires n < 16
    ensures IsHexDigit(c)
  {
    if n < 10 then ('0' as int + n) as char else ('a' as int + n - 10) as char
  }

  predicate IsHexDigit(c: char) {
    '0' <= c <= '9' || 'a' <= c <= 'f'
  }

  /** The value of a lowercase hexadecimal digit. */
  function HexValue(c: char): (n: nat)
    requires IsHexDigit(c)
    ensures n < 16 && HexDigit(n) == c
  {
    if '0' <= c <= '9' then c as int - '0' as int else c as int - 'a' as int + 10
  }

  /** `{:02x}`: two lowercase digits, the high nibble first, zero-padded. */
  function HexByte(b: byte): (s: string)
    ensures |s| == 2 && IsHexDigit(s[0]) && IsHexDigit(s[1])
    ensures HexValue(s[0]) * 16 + HexValue(s[1]) == b
  {
    [HexDigit(b / 16), HexDigit(b % 16)]
  }

  /** The octets written one after the other as `{:02x}`. */
  function HexOf(bs: seq<byte>): string
  {
    if bs == [] then "" else HexOf(bs[..|bs| - 1]) + HexByte(bs[|bs| - 1])
  }

  /** Text made of lowercase hexadecimal digits, two to an octet. */
  predicate HexText(s: string) {
    |s| % 2 == 0 && forall i :: 0 <= i < |s| ==> IsHexDigit(s[i])
  }

  /** Reading hexadecimal text back, two digits to an octet. */
  function ParseHex(s: string): seq<byte>
    requires HexText(s)
  {
    if s == [] then []
    else
      assert HexText(s[..|s| - 2]) by {
        assert forall i :: 0 <= i < |s| - 2 ==> s[..|s| - 2][i] == s[i];
      }
      ParseHex(s[..|s| - 2]) + [HexValue(s[|s| - 2]) * 16 + HexValue(s[|s| - 1])]
  }

  /** Each octet takes exactly two lowercase hexadecimal digits. */
  lemma {:induction false} HexOfShape(bs: seq<byte>)
    ensures |HexOf(bs)| == 2 * |bs| && HexText(HexOf(bs))
  {
    if bs != [] {
      var init := bs[..|bs| - 1];
      HexOfShape(init);
      var s := HexOf(bs);
      assert s == HexOf(init) + HexByte(bs[|bs| - 1]);
      forall i | 0 <= i < |s|
        ensures IsHexDigit(s[i])
      {
        if i < |HexOf(init)| {
          assert s[i] == HexOf(init)[i];
        }
      }
    }
  }

  /** The hexadecimal text determines the octets it was written from. */
  lemma {:induction false} ParseHexOf(bs: seq<byte>)
    ensures HexText(HexOf(bs)) && ParseHex(HexOf(bs)) == bs
  {
    HexOfShape(bs);
    if bs != [] {
      var init, b := bs[..|bs| - 1], bs[|bs| - 1];
      var s := HexOf(bs);
      HexOfShape(init);
      assert s == HexOf(init) + HexByte(b);
      assert s[..|s| - 2] == HexOf(init);
      assert s[|s| - 2] == HexByte(b)[0] && s[|s| - 1] == HexByte(b)[1];
      ParseHexOf(init);
      assert bs == init + [b];
    }
  }

  /** The text display_logical_id writes. */
  function LogicalIdText(nickname: string, key: seq<byte>): string {
    nickname + "#" + HexOf(key[..if |key| < 3 then |key| else 3])
  }

  /**
   * The text is the nickname, `#`, and two hexadecimal digits for each of the
   * first three key octets (fewer when the key is shorter), which can be read
   * back as those octets.
   */
  lemma LogicalIdTextShape(nickname: string, key: seq<byte>)
    ensures var n := if |key| < 3 then |key| else 3;
            var t := LogicalIdText(nickname, key);
            |t| == |nickname| + 1 + 2 * n &&
            t[..|nickname|] == nickname && t[|nickname|] == '#' &&
            HexText(t[|nickname| + 1..]) && ParseHex(t[|nickname| + 1..]) == key[..n]
  {
    var n := if |key| < 3 then |key| else 3;
    var t := LogicalIdText(nickname, key);
    var h := HexOf(key[..n]);
    HexOfShape(key[..n]);
    assert t == (nickname + "#") + h;
    assert t[|nickname| + 1..] == h;
    ParseHexOf(key[..n]);
  }

  /** display_logical_id: the nickname, `#`, then a loop over the first three key octets. */
  method DisplayLogicalId(nickname: string, key: seq<byte>) returns (out: string)
    ensures out == LogicalIdText(nickname, key)
  {
    out := nickname + "#";
    var i := 0;
    while i < |key| && i < 3
      invariant 0 <= i <= |key| && i <= 3
      invariant out == nickname + "#" + HexOf(key[..i])
    {
      assert key[..i + 1][..i] == key[..i];
      out := out + HexByte(key[i]);
      i := i + 1;
    }
  }

  /** Display of an own identity: the same text as the Display of its `to_public()`. */
  method DisplayOwnIdentity(own: OwnIdentity) returns (out: string)
    ensures out == LogicalIdText(ToPublic(own).nickname, ToPublic(own).key)
  {
    out := DisplayLogicalId(own.nickname, own.publicKey);
  }

  /** Display of a logical identity. */
  method DisplayLogicalPeerIdentity(id: LogicalPeerIdentity) returns (out: string)
    ensures out == LogicalIdText(id.nickname, id.key)
  {
    out := DisplayLogicalId(id.nickname, id.key);
  }
}
