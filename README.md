# ngn: a verified model of its core

ngn is a peer-to-peer messaging library for Wi-Fi Direct groups. Peers
discover one another, form a P2P group, and exchange control messages over
link-local IPv6. A control message associates a device with the user behind
it. Peer messages are signed. Each platform back-end keeps the same kind of
bookkeeping: the peers it knows, the groups it belongs to, and which peer is
in which group. The repository also ships a 2048 demo game for Android, played
by two devices over such a session.

This project models the following parts:

- **Utilities** (`utils.dfy`): MAC address parsing, the EUI-64 and the
  IPv6 link-local address derived from it, and the retry loop with a
  bounded number of attempts.
- **Framing** (`bytes.dfy`, `protocol.dfy`, `phy_protocol.dfy`):
  - the binary message format: magic `0xdead`, version 1, a big-endian
    `u32` length, an optional 64-octet Ed25519 signature, then the payload;
  - the control and peer messages read on top of it;
  - the padded MAC-address encoding;
  - the socket address of a peer.
- **Identities, key exchange and nonces** (`identity.dfy`,
  `key_exchange.dfy`, `encryption.dfy`):
  - the public view of an identity and its `nick#abcdef` display;
  - the key-exchange state machine;
  - the AES-GCM nonce sequence, with its 32-bit counter.
- **Session bookkeeping** (`handles.dfy`, `dbus_store.dfy`, `registry.dfy`,
  `dbus_session.dfy`, `android_session.dfy`, `phy_android.dfy`):
  - the handle map (the `handy` crate) and the D-Bus store;
  - the relation "peer `p` lists group `g` exactly when group `g` counts
    peer `p`". It is called `Linked` and is shared by every back-end;
  - each event handler of the D-Bus back-end, the Android back-end and the
    older Android physical layer that updates the peer or group maps, as a
    method on a session class that keeps that relation.
- **The 2048 board** (`game_types.dfy`, `game_model.dfy`, `game_board.dfy`,
  `legacy_game.dfy`):
  - `GameBoard.kt`: a grid array of tiles plus a tile list, modelled as a
    class over an `array2`;
  - a pure model of a move's sweep that `tryMove` is proved to compute;
  - the older `GameState.kt` with its own board class.

Cryptography (signing, verification, X25519, AES-GCM), bincode decoding,
randomness and `if_nametoindex` are parameters of the functions that use them.

## Model

| member | source | states |
|---|---|---|
| Utils.ToMacAddr | src/utils.rs:63-78 | 6 or 8 octets give a 48- or 64-bit address whose octets are the input; any other length gives none |
| Utils.ToMacAddrOfBytes | src/utils.rs:63-78 | parsing an address's own octets gives the address back |
| Utils.ToEui64 | src/utils.rs:80-87 | a 64-bit address is its own EUI-64; a 48-bit one gets `ff fe` inserted after its third octet |
| Utils.Eui64Injective | src/utils.rs:80-87 | two addresses of the same width with the same EUI-64 are equal |
| Utils.InterfaceIdentifier | src/utils.rs:91-109 | the EUI-64 with the universal/local bit (0x02) of the first octet flipped and every other octet kept |
| Utils.InterfaceIdentifierInverse | src/utils.rs:91-109 | flipping the bit again gives the EUI-64 back |
| Utils.LinkLocalAddress | src/utils.rs:91-109 | the address is the prefix fe80::/64 followed by the interface identifier |
| Utils.MacAddrToLocalLinkAddress | src/utils.rs:91-109 | the octet-copying method computes exactly LinkLocalAddress |
| Utils.LinkLocalAddressInjective | src/utils.rs:91-109 | distinct addresses of one width get distinct link-local addresses |
| Utils.LinkLocalAddressScope | src/utils.rs:91-109 | every derived address lies in fe80::/10 |
| Utils.RetryTimeout | src/utils.rs:29-60 | the result is that of the last attempt; every earlier attempt failed; a failure means all `count` attempts were made |
| Bytes.ByteXor | src/utils.rs:101 | the exclusive or of two octets is an octet |
| Bytes.FlipBitOne | src/utils.rs:101 | `^ 0x02` adds or subtracts 2 according to bit 1 |
| Bytes.XorSelfInverse | src/utils.rs:101 | xor with the same operand twice is the identity |
| Bytes.BE16 | src/protocol/mod.rs:141-142 | `write_u16` writes two octets |
| Bytes.BE32 | src/protocol/mod.rs:143 | `write_u32` writes four octets |
| Bytes.FromBE16 | src/protocol/mod.rs:35 | the value read from two octets encodes back to them |
| Bytes.FromBE32 | src/protocol/mod.rs:43 | the value read from four octets encodes back to them |
| Bytes.BE16RoundTrip | src/protocol/mod.rs:35 | decoding an encoded `u16` gives it back |
| Bytes.BE32RoundTrip | src/protocol/mod.rs:43 | decoding an encoded `u32` gives it back |
| Bytes.BE32Injective | src/protocol/mod.rs:143 | distinct lengths are written differently |
| Bytes.SplitU32 | src/protocol/mod.rs:141-143 | a `u32` is its high and low `u16` halves in big-endian order |
| Bytes.ReadU16 | src/protocol/mod.rs:35 | succeeds exactly when two octets remain, and the stream is their encoding followed by the rest |
| Bytes.ReadU32 | src/protocol/mod.rs:43 | succeeds exactly when four octets remain, and the stream is their encoding followed by the rest |
| Bytes.ReadExact | src/protocol/mod.rs:47-69 | succeeds exactly when `n` octets remain, and splits the stream there |
| Bytes.ReadU16Written | src/protocol/mod.rs:35 | what `write_u16` wrote is read back, leaving what followed |
| Bytes.ReadU32Written | src/protocol/mod.rs:43 | what `write_u32` wrote is read back, leaving what followed |
| Bytes.ReadExactWritten | src/protocol/mod.rs:47-69 | written octets are read back, leaving what followed |
| Protocol.Header | src/protocol/mod.rs:28-29 | the header is eight octets |
| Protocol.SignatureBytes | src/protocol/identity.rs:16 | a signature takes 64 octets; no signature takes none |
| Protocol.WriteBinaryMessage | src/protocol/mod.rs:134-154 | fails exactly for payloads of 2^32 octets or more; otherwise it writes the header, then the signature if any, then the payload |
| Protocol.ReadHeader | src/protocol/mod.rs:35-43 | end of stream, wrong magic or wrong version are reported in that order; on success the stream is the header of the length read, followed by the rest |
| Protocol.ReadSignature | src/protocol/mod.rs:47-49 | a signature is read only when one is expected, and only when 64 octets remain |
| Protocol.ReadBody | src/protocol/mod.rs:47-69 | the body read is the signature, then exactly `len` octets of payload |
| Protocol.ReadBinaryMessage | src/protocol/mod.rs:31-73 | header errors pass through; on success the stream is the header, the signature and the payload, followed by the rest |
| Protocol.HeaderFields | src/protocol/mod.rs:35-43 | the fields of a written header are magic, version and length |
| Protocol.SignedLayout | src/protocol/mod.rs:47-49 | the signature follows the header and the payload follows the signature |
| Protocol.ReadHeaderWritten | src/protocol/mod.rs:35-43 | a written header is read back as its length |
| Protocol.ReadBodyWritten | src/protocol/mod.rs:47-69 | a written signature and payload are read back |
| Protocol.WriteReadRoundTrip | src/protocol/mod.rs:31-154 | for any payload under 2^32 octets, with or without signature, reading what was written gives the payload and the signature back and leaves what followed |
| Protocol.ZeroLengthReadsSignatureFirst | src/protocol/mod.rs:47-54 | an empty signed message still needs its 64 signature octets; an empty unsigned one is read as empty |
| Protocol.ReadControlMessage | src/protocol/mod.rs:76-100 | framing errors pass through; success means the decoder consumed the whole payload |
| Protocol.ControlMessageRoundTrip | src/protocol/mod.rs:76-100 | a message whose encoding decodes exactly to it is read back from what was written |
| Protocol.ReadPeerMessage | src/protocol/mod.rs:103-123 | framing errors pass through; success means the signature verified for the payload under the peer's key |
| Protocol.PeerMessageRoundTrip | src/protocol/mod.rs:103-154 | a message signed for its payload is read back with that payload |
| Protocol.PeerToSocketAddr | src/protocol/mod.rs:267-274 | the socket has the given address and port; it is IPv6, with flow info 0 and the given scope, exactly when the address is |
| Protocol.PeerToSocketAddrIgnoresScopeForV4 | src/protocol/mod.rs:267-274 | the scope id plays no part for IPv4 |
| Protocol.DecodableMacAddr.ToMacAddr | src/protocol/mod.rs:181-190 | the first six octets, or all eight for a 64-bit address |
| Protocol.FromMacAddr | src/protocol/mod.rs:171-179 | the encoding is the octets, zero-padded to eight |
| Protocol.DecodableMacAddrRoundTrip | src/protocol/mod.rs:166-190 | encoding then decoding gives the address back, and a 48-bit address leaves octets 6 and 7 zero |
| Protocol.DecodableMacAddrCanonical | src/protocol/mod.rs:166-190 | a zero-padded encoding is the encoding of the address it decodes to |
| Protocol.MatchesOwnReport | src/protocol/mod.rs:202-210 | a device matches a report of its own name, and a reported address exactly when it is its device address |
| PhyProtocol.WriteBinaryMessage | src/phy/protocol/mod.rs:53-69 | the physical layer writes the unsigned frame of the IPv6 protocol |
| PhyProtocol.ReadBinaryMessage | src/phy/protocol/mod.rs:20-51 | it reads as the unsigned IPv6 frame reads, with the same errors |
| PhyProtocol.WriteReadRoundTrip | src/phy/protocol/mod.rs:20-69 | what is written is read back, leaving what followed |
| Identity.ToPublic | src/protocol/identity.rs:35-41 | the public identity has the same nickname and the public key |
| Identity.HexDigit | src/protocol/identity.rs:44-53 | a value below 16 gives a lowercase hexadecimal digit |
| Identity.HexValue | src/protocol/identity.rs:44-53 | the value of a digit, and the inverse of HexDigit |
| Identity.HexByte | src/protocol/identity.rs:44-53 | `{:02x}`: two digits whose value is the octet |
| Identity.HexOfShape | src/protocol/identity.rs:44-53 | each octet takes exactly two hexadecimal digits |
| Identity.ParseHexOf | src/protocol/identity.rs:44-53 | the hexadecimal text determines the octets it came from |
| Identity.LogicalIdTextShape | src/protocol/identity.rs:44-53 | the text is the nickname, `#`, then two digits for each of at most three leading key octets |
| Identity.DisplayLogicalId | src/protocol/identity.rs:44-53 | the loop writes exactly that text |
| Identity.DisplayOwnIdentity | src/protocol/identity.rs:55-60 | an own identity displays as its public identity |
| Identity.DisplayLogicalPeerIdentity | src/protocol/identity.rs:68-72 | a logical identity displays as nickname and key prefix |
| KeyExchange.FinishLeavesProgress | src/protocol/key_exchange.rs:50-63 | after `finish` the exchange is no longer in progress, and it succeeded exactly when it completed |
| KeyExchange.SecondFinishFails | src/protocol/key_exchange.rs:50-63 | a second `finish` always fails and changes nothing |
| KeyExchange.KeyExchange.constructor | src/protocol/key_exchange.rs:34-44 | a new exchange is in progress with its key pair |
| KeyExchange.KeyExchange.Finish | src/protocol/key_exchange.rs:50-63 | one step of the state machine: in progress goes to completed or errored; any other state fails and stays |
| KeyExchange.KeyExchange.EncryptionKeys | src/protocol/key_exchange.rs:66-71 | the keys, exactly when the exchange completed |
| Encryption.Nonce | src/protocol/encryption.rs:30-41 | a 12-octet nonce: the big-endian counter, then eight random octets |
| Encryption.CounterAfterValue | src/protocol/encryption.rs:30-41 | the counter equals the number of advances until it wraps to 0 at 2^32 |
| Encryption.NoncePrefixesDistinct | src/protocol/encryption.rs:30-41 | the first 2^32 nonces have distinct counter prefixes, and the next one repeats the first prefix |
| Encryption.NonceSequence.constructor | src/protocol/encryption.rs:19-26 | the counter starts at 0 |
| Encryption.NonceSequence.Advance | src/protocol/encryption.rs:30-41 | if the random fill fails there is no nonce and the counter stays; otherwise the nonce for the old counter is returned and the counter wraps up by one |
| Store.DbusStore.constructor | src/phy/dbus/store.rs:62-69 | both indices start empty |
| Store.DbusStore.Get | src/phy/dbus/store.rs:31-33 | the entry of a live handle, none for any other |
| Store.DbusStore.IdByPath | src/phy/dbus/store.rs:44-46 | the handle of the stored entry with that path, or none when no entry has it |
| Store.DbusStore.GetByPath | src/phy/dbus/store.rs:48-52 | the entry with that path exactly when one is stored |
| Store.DbusStore.Insert | src/phy/dbus/store.rs:23-29 | a fresh handle that comes last in iteration; both indices point to it; the store stays consistent |
| Store.DbusStore.Update | src/phy/dbus/store.rs:40-42 | replaces a live entry and reports whether it existed; the path index is unchanged |
| Store.DbusStore.Remove | src/phy/dbus/store.rs:54-61 | removes a live entry from both indices and returns it; any other handle changes nothing |
| Store.DbusStore.Clear | src/phy/dbus/store.rs:35-38 | both indices empty |
| Registry.LeaveGroups | src/platform/dbus/mod.rs:841-862 | only the groups in the list lose the peer; every group is kept |
| Registry.LeaveGroupsSnoc | src/platform/dbus/mod.rs:841-862 | leaving one more group is one more loop step |
| Registry.PeerLostKeepsLinked | src/platform/dbus/mod.rs:812-867 | after a lost peer leaves its groups and the peer map, the peers and groups are still Linked |
| Registry.LeaveAll | src/platform/android/mod.rs:628-653 | every group without the given peers |
| Registry.LeaveListedIsLeaveAll | src/platform/android/mod.rs:628-653 | for Linked maps, leaving the listed groups is leaving every group |
| Registry.LeaveAllTwice | src/platform/android/mod.rs:628-653 | losing peers one after another is losing them all at once |
| Registry.FreshPeersKeepLinked | src/platform/android/mod.rs:592-609 | new peers with no group keep the relation |
| Registry.RemoveFirst | src/platform/dbus/mod.rs:1019-1044 | the list without that group, other elements and distinctness kept |
| Registry.DropGroup | src/platform/dbus/mod.rs:1019-1044 | the peers of a finished group no longer list it; no peer is removed |
| Registry.DropGroupStep | src/platform/dbus/mod.rs:1019-1044 | one more peer of the loop drops the group |
| Registry.GroupFinishedKeepsLinked | src/platform/dbus/mod.rs:984-1050 | once the group is gone and its peers have dropped it, the maps are still Linked and no peer lists it |
| Registry.ListsIssued | src/platform/android/mod.rs:661-695 | every group a peer lists is a handle the group map has handed out |
| Registry.FreshGroupKeepsLinked | src/platform/android/mod.rs:661-695 | a new empty group that no peer lists keeps the relation |
| Registry.JoinKeepsIssued | src/platform/android/mod.rs:368-411 | a join keeps every listed group a handle that was issued |
| Registry.DropGroupKeepsIssued | src/platform/dbus/mod.rs:1019-1044 | dropping a finished group from peers' lists keeps every listed group issued |
| Registry.Unlink | src/platform/dbus/mod.rs:636-665 | the peer no longer lists the group, and the group no longer counts the peer |
| Registry.UnlinkKeepsLinked | src/platform/dbus/mod.rs:636-665 | `peer_left` keeps the maps Linked |
| Registry.Join | src/platform/dbus/mod.rs:415-416 | the group is appended to the peer's list, and the peer takes the logical identity |
| Registry.Record | src/platform/dbus/mod.rs:441-449 | an existing group records the peer's address; a torn-down group stays as it was |
| Registry.AssociateKeepsLinked | src/platform/dbus/mod.rs:396-449 | an admitted association keeps the maps Linked |
| Registry.FirstMatch | src/platform/dbus/mod.rs:399-402 | the first peer in iteration order that matches the reported identity |
| Registry.FindMatch | src/platform/dbus/mod.rs:399-402 | the loop finds exactly FirstMatch |
| Registry.AdmittedJoinsOnce | src/platform/dbus/mod.rs:402-417 | an admitted peer joins the group exactly once under that identity, and the same association is refused a second time |
| Registry.Route | src/platform/dbus/mod.rs:290-320 | the failure of each lookup step (peer gone, no group, group gone, no address) happens exactly in its case; success gives the first group's address and scope |
| Registry.RouteHasAddress | src/platform/dbus/mod.rs:290-320 | in Linked maps a route never fails for lack of an address |
| Registry.RouteAfterAssociate | src/platform/dbus/mod.rs:290-320 | after a peer's first association, it is routed to the address it associated from |
| Registry.Destination | src/platform/dbus/mod.rs:290-320 | the socket address of the route, or the route's failure |
| Registry.PeerIdFromAddress | src/platform/dbus/mod.rs:335-349 | the peer of the group with that address, or none when the group has no such peer |
| DbusSession.LeaveOne | src/platform/dbus/mod.rs:841-862 | one loop step: the group, if it still exists, loses the peer |
| DbusSession.LeaveEach | src/platform/dbus/mod.rs:841-862 | the loop computes LeaveGroups |
| DbusSession.DropFromEach | src/platform/dbus/mod.rs:1019-1044 | the loop computes DropGroup |
| DbusSession.Session.constructor | src/platform/dbus/mod.rs:244-253 | a session starts with no peers and no groups |
| DbusSession.Session.DeviceFound | src/platform/dbus/mod.rs:770-808 | an unparsable address stores nothing; a known path keeps its peer; a new path stores a new peer with no groups |
| DbusSession.Session.DeviceLost | src/platform/dbus/mod.rs:812-867 | an unknown path changes nothing; otherwise the peer leaves the store and every group it listed, and the relation is kept |
| DbusSession.Session.GroupStarted | src/platform/dbus/mod.rs:886-980 | a missing path or an unparsable address stores nothing; otherwise a fresh group with no peers, the link-local owner address of its BSSID and role "GO" as owner, indexed by its path, and the relation is kept |
| DbusSession.Session.GroupFinished | src/platform/dbus/mod.rs:984-1050 | an unknown path changes nothing; otherwise the group leaves the store and every peer's list, and the relation is kept |
| DbusSession.Session.PeerLeft | src/platform/dbus/mod.rs:636-665 | an unknown peer changes nothing, even on a group that is gone; otherwise Unlink is applied |
| DbusSession.Session.Associate | src/platform/dbus/mod.rs:390-449 | the first matching peer is admitted or refused; admission is Join plus Record, refusal changes nothing |
| DbusSession.Session.MessagePeerDestination | src/platform/dbus/mod.rs:290-320 | never fails for lack of an address; success implies the peer is live and in a group |
| DbusSession.Session.PeerIdFromSource | src/platform/dbus/mod.rs:335-349 | the peer of that group with the source's IP, or none exactly when no such peer exists |
| DbusSession.Session.Stop | src/platform/dbus/mod.rs:244-253 | both stores empty |
| AndroidSession.FirstReport | src/platform/android/mod.rs:592-609 | the index of the first report of an address, or the length of the list when there is none |
| AndroidSession.TakeGroups | src/platform/android/mod.rs:628-653 | the given peers have their group lists taken; the others are unchanged |
| AndroidSession.LeaveEach | src/platform/android/mod.rs:640-650 | the loop computes LeaveGroups |
| AndroidSession.FirstReportStep | src/platform/android/mod.rs:592-609 | reading one more report adds exactly its address |
| AndroidSession.RegisterStep | src/platform/android/mod.rs:592-609 | one report adds its address to the seen set |
| AndroidSession.RegisterPrefix | src/platform/android/mod.rs:592-609 | the first `k` reports keep the map valid |
| AndroidSession.RegisterStepIndexed | src/platform/android/mod.rs:592-609 | one report keeps the address index in step with the map |
| AndroidSession.RegisteredIndexed | src/platform/android/mod.rs:592-609 | the index stays in step with the map over the loop |
| AndroidSession.RegisteredSeen | src/platform/android/mod.rs:592-609 | the addresses seen are exactly those reported |
| AndroidSession.RegisteredIndex | src/platform/android/mod.rs:592-609 | a known address keeps its handle; an address is indexed exactly when it was known or reported |
| AndroidSession.RegisteredPeers | src/platform/android/mod.rs:592-609 | stored peers stay; the map gains exactly the joined peers, each new and each once |
| AndroidSession.RegisterStepPeers | src/platform/android/mod.rs:592-609 | one report keeps that growth property |
| AndroidSession.RegisteredJoined | src/platform/android/mod.rs:592-609 | a newly indexed address names a peer reported as joined |
| AndroidSession.RegisteredJoinedSeen | src/platform/android/mod.rs:592-609 | every joined peer is stored under a reported address |
| AndroidSession.NewAddressFirstReport | src/platform/android/mod.rs:592-609 | an address new at a report is first reported there |
| AndroidSession.RegisteredNew | src/platform/android/mod.rs:592-609 | a newly indexed address names a new peer built from its first report |
| AndroidSession.RegisterStepEntry | src/platform/android/mod.rs:592-609 | one report keeps that property |
| AndroidSession.LostIdsAppend | src/platform/android/mod.rs:611-626 | one more lost peer adds its handle |
| AndroidSession.RetainStep | src/platform/android/mod.rs:611-626 | one visit of the `retain` keeps the map valid and never issues handles |
| AndroidSession.RetainAll | src/platform/android/mod.rs:611-626 | the whole `retain` keeps the map valid and never issues handles |
| AndroidSession.RetainedIndex | src/platform/android/mod.rs:611-626 | an address stays indexed, under its handle, exactly when it was seen or not yet visited |
| AndroidSession.TakeGroupsMore | src/platform/android/mod.rs:611-626 | taking the groups of one more peer |
| AndroidSession.LostOnceAppend | src/platform/android/mod.rs:611-626 | reporting a peer not yet reported keeps every report unique |
| AndroidSession.RetainedTaken | src/platform/android/mod.rs:611-626 | exactly the peers reported lost have had their groups taken |
| AndroidSession.RetainedLost | src/platform/android/mod.rs:611-626 | the peers reported lost are those whose address was visited and not seen |
| AndroidSession.RetainedLostOnce | src/platform/android/mod.rs:611-626 | each peer is reported lost at most once |
| AndroidSession.RetainedLostGroups | src/platform/android/mod.rs:611-626 | each lost peer is reported with the groups it listed before |
| AndroidSession.RetainedEntries | src/platform/android/mod.rs:611-626 | after a full `retain`: lost exactly when not seen; indexed exactly when seen |
| AndroidSession.RetainedList | src/platform/android/mod.rs:611-626 | every lost peer is reported once, with its groups |
| AndroidSession.RetainedIndexed | src/platform/android/mod.rs:611-626 | the index covers the map except for the pending lost peers |
| AndroidSession.Retain | src/platform/android/mod.rs:611-626 | the loop computes RetainAll over every indexed address once |
| AndroidSession.RetainUnseen | src/platform/android/mod.rs:611-626 | the `retain` on a map and its index meets the Retained relation |
| AndroidSession.LeaveLost | src/platform/android/mod.rs:628-653 | every group is kept |
| AndroidSession.LeftLost | src/platform/android/mod.rs:628-653 | each lost peer leaving its groups is all of them leaving every group, and the remaining maps are Linked |
| AndroidSession.DropLostStep | src/platform/android/mod.rs:628-653 | one more lost peer leaves the map and its groups |
| AndroidSession.DropLostPeers | src/platform/android/mod.rs:628-653 | the loop removes the lost peers and computes LeaveLost |
| AndroidSession.RegisteredKeepsLinked | src/platform/android/mod.rs:592-609 | registration keeps the maps Linked and every listed group issued |
| AndroidSession.UpdatedIndex | src/platform/android/mod.rs:585-660 | after an update the index holds exactly the reported addresses; known ones keep their handles |
| AndroidSession.UpdatedPeer | src/platform/android/mod.rs:585-660 | joined peers are new and stored; a peer stays exactly when its address was reported; kept peers are unchanged; lost peers are the unreported ones |
| AndroidSession.UpdatedLost | src/platform/android/mod.rs:628-653 | each lost peer is reported with the groups it listed before |
| AndroidSession.PeerStore.Replace | src/platform/android/mod.rs:90-102 | updates an entry with the same address and keeps the index |
| AndroidSession.PeerStore.RemoveLost | src/platform/android/mod.rs:628-653 | the pending peers leave the map |
| AndroidSession.PeerStore.constructor | src/platform/android/mod.rs:90-102 | map and index start empty |
| AndroidSession.PeerStore.Clear | src/platform/android/mod.rs:98-101 | map and index empty |
| AndroidSession.PeerStore.Register | src/platform/android/mod.rs:592-609 | the registration loop meets the Registered relation |
| AndroidSession.PeerStore.RetainSeen | src/platform/android/mod.rs:611-626 | the `retain` meets the Retained relation |
| AndroidSession.Session.constructor | src/platform/android/mod.rs:290-308 | a session starts with no peers and no groups |
| AndroidSession.Session.DropLost | src/platform/android/mod.rs:628-653 | the lost peers leave the map and every group, and the relation is kept |
| AndroidSession.Session.UpdateDevices | src/platform/android/mod.rs:585-660 | the index holds exactly the reported addresses; joined peers are new; lost peers are exactly those not reported, each once, with their groups; groups lose exactly the lost peers; the listener is told exactly when something changed |
| AndroidSession.Session.GroupStarted | src/platform/android/mod.rs:661-695 | a new empty group under a fresh handle; peers untouched |
| AndroidSession.Session.Associate | src/platform/android/mod.rs:368-448 | the first matching peer is admitted (Join plus Record) or refused (no change) |
| AndroidSession.Session.MessagePeerDestination | src/platform/android/mod.rs:253-283 | never fails for lack of an address; success implies the peer is live and in a group |
| AndroidSession.Session.PeerIdFromSource | src/platform/android/mod.rs:310-324 | the peer of that group with the source's IP, or none exactly when no such peer exists |
| AndroidSession.Session.Stop | src/platform/android/mod.rs:190-199 | groups and peers empty |
| PhyAndroid.FindPeerIdByOwnAddr | src/phy/android/mod.rs:700-712 | none exactly when no live peer matches the report; otherwise the first match in iteration order |
| PhyAndroid.FindPeerIdByDevAddr | src/phy/android/mod.rs:692-698 | none exactly when no peer has that device address; otherwise a peer with it |
| PhyAndroid.Unlinked | src/phy/android/mod.rs:628-638 | only the listed groups lose the peer; every group is kept |
| PhyAndroid.UnlinkedSnoc | src/phy/android/mod.rs:628-638 | one more loop step |
| PhyAndroid.LostLoopFindsPeer | src/phy/android/mod.rs:628-638 | while the maps are Linked, each group of the loop still counts the peer, as the debug assertion expects |
| PhyAndroid.UnlinkEach | src/phy/android/mod.rs:628-638 | the loop computes Unlinked |
| PhyAndroid.LostInNoGroup | src/phy/android/mod.rs:648 | afterwards no group counts the lost peer, as the debug assertion expects |
| PhyAndroid.LostGroupsCountRemaining | src/phy/android/mod.rs:605-648 | the groups count only peers they counted before, other than the lost one |
| PhyAndroid.LostPeersListed | src/phy/android/mod.rs:605-648 | every group that a remaining peer lists still counts it |
| PhyAndroid.LostUnlinks | src/phy/android/mod.rs:605-648 | losing a peer keeps the maps Linked |
| PhyAndroid.AssociatedAsWritten | src/phy/android/mod.rs:381-408 | as written, the group records the peer but the peer's list is unchanged |
| PhyAndroid.AsWrittenLostPeerLingers | src/phy/android/mod.rs:381-408 | after found, group started, associate and lost, the group still counts the lost peer |
| PhyAndroid.AsWrittenNeverRoutes | src/phy/android/mod.rs:218-239 | as written, while no peer lists a group an association leaves it so, and the route lookup of every live peer fails for want of a group |
| PhyAndroid.AssociatedGroupsCounted | src/phy/android/mod.rs:381-408 | with the group appended to the peer's list, every listed group counts the peer |
| PhyAndroid.AssociatedPeersListed | src/phy/android/mod.rs:381-408 | with the group appended, every counted peer lists the group, each list once |
| PhyAndroid.AssociatedKeepsLinked | src/phy/android/mod.rs:381-408 | the corrected association keeps the maps Linked |
| PhyAndroid.FreshPeerKeepsLinked | src/phy/android/mod.rs:584-603 | a new peer with no groups keeps the relation |
| PhyAndroid.FreshGroupKeepsLinked | src/phy/android/mod.rs:650-686 | a new empty group keeps the relation and the group addresses |
| PhyAndroid.FindByAddress | src/phy/android/mod.rs:279-305 | a peer of the group with that link-local address, or none exactly when there is none |
| PhyAndroid.Route | src/phy/android/mod.rs:218-251 | each failure (peer gone, no group, group gone, no address) happens exactly in its case |
| PhyAndroid.LinkedRoutes | src/phy/android/mod.rs:218-251 | in a valid session a route exists exactly when the peer is live and lists a group |
| PhyAndroid.Session.constructor | src/phy/android/mod.rs:259-277 | no peers and no groups |
| PhyAndroid.Session.DeviceFound | src/phy/android/mod.rs:584-603 | a known address keeps its peer; an unknown one gets a new peer with no groups |
| PhyAndroid.Session.DeviceLost | src/phy/android/mod.rs:605-648 | an unknown address changes nothing; otherwise the peer leaves the map and every group it listed |
| PhyAndroid.Session.GroupStarted | src/phy/android/mod.rs:650-686 | a new empty group under a fresh handle; peers untouched |
| PhyAndroid.Session.Associate | src/phy/android/mod.rs:368-440 | the first matching peer is recorded in the group and, corrected, the group is appended to its list; no match means no change |
| PhyAndroid.Session.PeerIdFromAddress | src/phy/android/mod.rs:279-305 | IPv4 or an unknown group gives none; otherwise the peer with that address, or none exactly when there is none |
| PhyAndroid.Session.MessagePeerDestination | src/phy/android/mod.rs:218-251 | succeeds exactly when the peer is live and lists a group |
| PhyAndroid.Session.Stop | src/phy/android/mod.rs:163-172 | no peers and no groups |
| GameTypes.Tile.constructor | examples/android/src/main/java/io/crisal/ngndemo/GameBoard.kt:21-22 | a tile with that value and position |
| GameModel.Vector | examples/android/src/main/java/io/crisal/ngndemo/GameBoard.kt:146-151 | each direction moves one step along exactly one axis |
| GameModel.Furthest | examples/android/src/main/java/io/crisal/ngndemo/GameBoard.kt:70-81 | the next cell is occupied or off the board; the position is the start or a free cell; both lie ahead along the direction |
| GameModel.OffsetShift | examples/android/src/main/java/io/crisal/ngndemo/GameBoard.kt:70-81 | one step and then `i` steps is `i + 1` steps |
| GameModel.FurthestIsMaximalFreeRun | examples/android/src/main/java/io/crisal/ngndemo/GameBoard.kt:70-81 | after a run of `k` free cells and a blocked one, the slide stops at the last free cell |
| GameModel.Order | examples/android/src/main/java/io/crisal/ngndemo/GameBoard.kt:146-158 | a move visits sixteen cells |
| GameModel.OrderAt | examples/android/src/main/java/io/crisal/ngndemo/GameBoard.kt:155-158 | the `k`-th cell is pass `k / 4` of the outer loop and `k % 4` of the inner |
| GameModel.OrderAtLoop | examples/android/src/main/java/io/crisal/ngndemo/GameBoard.kt:155-158 | the cell of each loop pass |
| GameModel.OrderReachesEveryCell | examples/android/src/main/java/io/crisal/ngndemo/GameBoard.kt:146-158 | every cell of the board is visited |
| GameModel.OrderDistinct | examples/android/src/main/java/io/crisal/ngndemo/GameBoard.kt:146-158 | no cell is visited twice, and every visited cell is on the board |
| GameModel.OrderCoversBoard | examples/android/src/main/java/io/crisal/ngndemo/GameBoard.kt:146-158 | a move visits exactly the board's cells, each once |
| GameModel.OrderNearestFirst | examples/android/src/main/java/io/crisal/ngndemo/GameBoard.kt:146-151 | on each line, the cell nearer the edge the tiles move to is visited first |
| GameModel.TraceAt | examples/android/src/main/java/io/crisal/ngndemo/GameBoard.kt:155-181 | each loop pass is one Step of the sweep |
| GameModel.StepKeepsWon | examples/android/src/main/java/io/crisal/ngndemo/GameBoard.kt:164-172 | a step never takes back a win |
| GameModel.SweepTrace | examples/android/src/main/java/io/crisal/ngndemo/GameBoard.kt:155-181 | the sweep runs step by step from the initial state to its result |
| GameModel.TurnAfterMove | examples/android/src/main/java/io/crisal/ngndemo/GameBoard.kt:182-197 | a move ends in Lost exactly when no tile could be placed; otherwise the turn passes (MyTurn to OtherTurn, anything else to MyTurn) |
| GameModel.AllCells | examples/android/src/main/java/io/crisal/ngndemo/GameBoard.kt:35-45 | sixteen cells |
| GameModel.SweepWellFormed | examples/android/src/main/java/io/crisal/ngndemo/GameBoard.kt:155-181 | the sweep keeps every tile on the board |
| GameModel.StepTileCount | examples/android/src/main/java/io/crisal/ngndemo/GameBoard.kt:164-178 | a merge removes one tile and records one merge; a slide does neither |
| GameModel.SweepTileCount | examples/android/src/main/java/io/crisal/ngndemo/GameBoard.kt:155-181 | the number of tiles drops by the number of merges |
| GameModel.SweepMergesDistinct | examples/android/src/main/java/io/crisal/ngndemo/GameBoard.kt:164-172 | no cell is merged into twice in one move |
| GameModel.SweepIdle | examples/android/src/main/java/io/crisal/ngndemo/GameBoard.kt:155-182 | a sweep in which nothing moved leaves the board as it was and merges nothing |
| GameModel.AllCellsIndex | examples/android/src/main/java/io/crisal/ngndemo/GameBoard.kt:35-45 | each cell's position in the row-order list |
| GameModel.FreeInSpec | examples/android/src/main/java/io/crisal/ngndemo/GameBoard.kt:35-45 | the filter keeps exactly the free cells |
| GameModel.FreeInDistinct | examples/android/src/main/java/io/crisal/ngndemo/GameBoard.kt:35-45 | the filter keeps distinctness |
| GameModel.FreeCellsSpec | examples/android/src/main/java/io/crisal/ngndemo/GameBoard.kt:35-45 | availableCells lists exactly the free cells, each once |
| GameModel.CellValuesRoundTrip | examples/android/src/main/java/io/crisal/ngndemo/GameBoard.kt:200-211 | the flattened values determine the board |
| GameModel.ValueSumEmpty | examples/android/src/main/java/io/crisal/ngndemo/GameBoard.kt:47-53 | an empty board sums to 0 |
| GameModel.ValueSumChange | examples/android/src/main/java/io/crisal/ngndemo/GameBoard.kt:47-53 | changing one cell moves the sum by the difference |
| GameModel.AllCellsDistinct | examples/android/src/main/java/io/crisal/ngndemo/GameBoard.kt:35-45 | the row-order cells are distinct |
| GameModel.TotalChange | examples/android/src/main/java/io/crisal/ngndemo/GameBoard.kt:47-53 | changing one cell moves the score by the difference |
| GameModel.StepKeepsTotal | examples/android/src/main/java/io/crisal/ngndemo/GameBoard.kt:164-178 | a merge or a slide keeps the score |
| GameModel.SweepKeepsTotal | examples/android/src/main/java/io/crisal/ngndemo/GameBoard.kt:155-181 | the sweep keeps the score |
| Game.StaysAfterRemoval | examples/android/src/main/java/io/crisal/ngndemo/GameBoard.kt:91-96 | removing one element keeps the others |
| Game.CellsOfSpec | examples/android/src/main/java/io/crisal/ngndemo/GameBoard.kt:59-64 | tiles at distinct positions occupy exactly their cells, with their values |
| Game.SumValuesIsTotal | examples/android/src/main/java/io/crisal/ngndemo/GameBoard.kt:47-53 | the sum over the tile list equals the sum over the grid |
| Game.GameBoard.constructor | examples/android/src/main/java/io/crisal/ngndemo/GameBoard.kt:26-33 | an empty board that has not started |
| Game.GameBoard.TileAt | examples/android/src/main/java/io/crisal/ngndemo/GameBoard.kt:59-64 | null exactly for an empty or off-board cell; otherwise the listed tile on that cell |
| Game.GameBoard.CellAvailable | examples/android/src/main/java/io/crisal/ngndemo/GameBoard.kt:66-68 | on the board and free |
| Game.GameBoard.CellsAreTiles | examples/android/src/main/java/io/crisal/ngndemo/GameBoard.kt:26-33 | the grid and the tile list describe the same cells |
| Game.GameBoard.Score | examples/android/src/main/java/io/crisal/ngndemo/GameBoard.kt:47-53 | the sum of the tile values, which is the total of the grid |
| Game.GameBoard.AvailableCells | examples/android/src/main/java/io/crisal/ngndemo/GameBoard.kt:35-45 | exactly FreeCells |
| Game.GameBoard.CellValues | examples/android/src/main/java/io/crisal/ngndemo/GameBoard.kt:200-211 | exactly FlatValues |
| Game.GameBoard.FindFurthestPosition | examples/android/src/main/java/io/crisal/ngndemo/GameBoard.kt:70-81 | the loop computes Furthest |
| Game.GameBoard.AddTile | examples/android/src/main/java/io/crisal/ngndemo/GameBoard.kt:83-89 | a new tile on the free cell, appended to the list |
| Game.GameBoard.RemoveTile | examples/android/src/main/java/io/crisal/ngndemo/GameBoard.kt:91-96 | the tile leaves the list and the grid |
| Game.GameBoard.MoveTile | examples/android/src/main/java/io/crisal/ngndemo/GameBoard.kt:98-104 | the tile's value moves from its cell to the free one |
| Game.GameBoard.TryAddNewTile | examples/android/src/main/java/io/crisal/ngndemo/GameBoard.kt:129-137 | null exactly when no cell is free; otherwise a tile of that value on a free cell |
| Game.GameBoard.TryAddRandomTile | examples/android/src/main/java/io/crisal/ngndemo/GameBoard.kt:106-113 | null exactly when no cell is free; otherwise a 2 or a 4 on a free cell |
| Game.GameBoard.Start | examples/android/src/main/java/io/crisal/ngndemo/GameBoard.kt:115-121 | only a board that has not started starts: it gets MyTurn and one random tile when a cell is free |
| Game.GameBoard.Reset | examples/android/src/main/java/io/crisal/ngndemo/GameBoard.kt:213-218 | no tiles, and back to NotYetStarted |
| Game.GameBoard.StartWithTile | examples/android/src/main/java/io/crisal/ngndemo/GameBoard.kt:123-127 | the board holds exactly the given tile, and it is the other player's turn |
| Game.GameBoard.MergeTile | examples/android/src/main/java/io/crisal/ngndemo/GameBoard.kt:164-172 | the target doubles, the source leaves, one tile fewer |
| Game.GameBoard.MergeStep | examples/android/src/main/java/io/crisal/ngndemo/GameBoard.kt:164-172 | the merge branch is one Step of the model, and a 2048 sets Won |
| Game.GameBoard.SweepCell | examples/android/src/main/java/io/crisal/ngndemo/GameBoard.kt:159-180 | one cell's handling is one Step of the model |
| Game.GameBoard.SweepStep | examples/android/src/main/java/io/crisal/ngndemo/GameBoard.kt:155-181 | one inner-loop pass advances the trace by one |
| Game.GameBoard.SweepLine | examples/android/src/main/java/io/crisal/ngndemo/GameBoard.kt:155-181 | the inner loop advances the trace by four |
| Game.GameBoard.SweepBoard | examples/android/src/main/java/io/crisal/ngndemo/GameBoard.kt:146-181 | the loops compute Sweep; the score is kept; nothing moved means nothing changed |
| Game.GameBoard.PlaceAndPassTurn | examples/android/src/main/java/io/crisal/ngndemo/GameBoard.kt:182-197 | the given or a random tile is placed, and the state follows TurnAfterMove |
| Game.GameBoard.TryMove | examples/android/src/main/java/io/crisal/ngndemo/GameBoard.kt:139-198 | outside play nothing changes; otherwise the board becomes the sweep, plus the placed tile when something moved; the score grows by exactly the placed tile |
| LegacyGame.GameBoard.constructor | examples/android/src/main/java/io/crisal/ngndemo/GameState.kt:22-30 | an empty board that has not started |
| LegacyGame.GameBoard.TileAt | examples/android/src/main/java/io/crisal/ngndemo/GameState.kt:52-57 | null exactly for a cell without a tile |
| LegacyGame.GameBoard.CellAvailable | examples/android/src/main/java/io/crisal/ngndemo/GameState.kt:59-61 | no tile on the cell |
| LegacyGame.GameBoard.OffBoardCellAvailable | examples/android/src/main/java/io/crisal/ngndemo/GameState.kt:52-61 | a cell past the far edge counts as available, because only the upper bound is checked |
| LegacyGame.GameBoard.CellsAreTiles | examples/android/src/main/java/io/crisal/ngndemo/GameState.kt:22-30 | the grid and the tile list describe the same cells |
| LegacyGame.GameBoard.Score | examples/android/src/main/java/io/crisal/ngndemo/GameState.kt:44-50 | the sum of the tile values, which is the total of the grid |
| LegacyGame.GameBoard.AvailableCells | examples/android/src/main/java/io/crisal/ngndemo/GameState.kt:32-42 | exactly FreeCells |
| LegacyGame.GameBoard.AddTile | examples/android/src/main/java/io/crisal/ngndemo/GameState.kt:76-82 | a new tile on the free cell, appended to the list |
| LegacyGame.GameBoard.RemoveTile | examples/android/src/main/java/io/crisal/ngndemo/GameState.kt:84-89 | the tile leaves the list and the grid |
| LegacyGame.GameBoard.MoveTile | examples/android/src/main/java/io/crisal/ngndemo/GameState.kt:91-97 | the tile's value moves to the free cell |
| LegacyGame.GameBoard.TryAddNewTile | examples/android/src/main/java/io/crisal/ngndemo/GameState.kt:124-132 | null exactly when no cell is free; otherwise a tile of that value on a free cell |
| LegacyGame.GameBoard.TryAddRandomTile | examples/android/src/main/java/io/crisal/ngndemo/GameState.kt:99-106 | null exactly when no cell is free; otherwise a 2 or a 4 on a free cell |
| LegacyGame.GameBoard.Start | examples/android/src/main/java/io/crisal/ngndemo/GameState.kt:108-114 | only a board that has not started starts, with MyTurn and one random tile |
| LegacyGame.GameBoard.StartWithTile | examples/android/src/main/java/io/crisal/ngndemo/GameState.kt:116-122 | only a board that has not started starts, holding the given tile |
| LegacyGame.GameBoard.TryMove | examples/android/src/main/java/io/crisal/ngndemo/GameState.kt:134-185 | always returns null and changes nothing: the guard holds in every state |

## Left out

- Logging, `async` tasks, locks, sockets, JNI calls and listener
  notifications are not modelled. Each handler runs atomically on the
  session's maps, so races between separately locked maps are not captured.
  The notification is a returned boolean where the source decides whether
  to notify.
- Ed25519 signing and verification, X25519 agreement, the HKDF derivation
  and AES-GCM are function parameters. The model proves nothing about their
  cryptographic strength.
- bincode is a `decode` parameter of ReadControlMessage. The control
  message datatypes are declared without their encoding.
- The `OOM reading message` branch of `read_binary_message` is left out:
  allocation cannot fail in the model.
- The `retry` sleep between attempts and its clock are left out. RetryTimeout
  takes the attempts as a function of their index.
- `if_nametoindex` and the group interface's scope id are inputs of the
  handlers that use them.
- The handle map of the `handy` crate is a map, an iteration order and a
  fresh-handle counter. Its slot reuse and generation bits are not modelled:
  a new handle is any handle not yet issued.
- The 2048 random choices (the tile's cell and its value) are
  nondeterministic picks. The nine-in-ten probability of a 2 is not
  modelled.
- Kotlin's 32-bit `Int` overflow of tile values and the score is not
  modelled; values are unbounded integers.
- Kotlin `assert` in addTile, removeTile and moveTile becomes a
  precondition of the methods that model them. Kotlin assertions are off
  unless the JVM enables them, so the source does not stop there: addTile on
  an occupied cell overwrites the grid cell and still appends to the tile
  list, leaving the old tile listed (and scored) with no cell; only an
  off-board cell throws (an array index out of bounds). The model excludes
  these cases instead of modelling the diverged board.
- Store.DbusStore.Insert: requires that no stored entry has the path; the
  source only checks this with a `debug_assert`.
- Game.GameBoard.TryMove: the replayed tile's cell must be free once the
  sweep is done. On an occupied on-board cell the source silently lets the
  grid and the tile list diverge, as above; off the board it throws.
- Game.GameBoard.StartWithTile: requires the opponent's tile to be on the
  board; GameBoard.kt places it unchecked and throws for a cell off the
  board.
- LegacyGame.GameBoard.StartWithTile: requires the tile's cell on the board
  and free; off the board the source throws, and on an occupied cell the
  grid and the list diverge, as above.
- LegacyGame.GameBoard.TileAt: requires non-negative coordinates. GameState.kt
  checks only the upper bound, so a negative coordinate throws an array
  index out of bounds there.
- LegacyGame.GameBoard.CellAvailable: requires non-negative coordinates, for
  the same reason as TileAt.
- DbusSession.Session.PeerLeft: a known peer on a group that is gone panics
  at the `unwrap` (src/platform/dbus/mod.rs:647); that case is a
  precondition here.
- DbusSession.Session.GroupStarted: requires that no stored group has the
  path, as the store's `debug_assert` does. The interface and group proxies,
  the spawned group task and the listener's `joined_group` call are not
  modelled; the interface name and scope id are parameters.
- PhyAndroid.FindPeerIdByDevAddr, and through it PhyAndroid.Session.DeviceFound
  and PhyAndroid.Session.DeviceLost: the physical layer's own `PeerIdentity`
  type and its `matches` are not part of this model's source files. The model
  assumes that `matches` compares the name for a name identifier and the
  device address for an address identifier, as the newer identity type does
  (src/protocol/mod.rs:202-210).
- `Display` formatting errors are not modelled: writing to a string
  cannot fail.
- The nonce counter's overflow panic in debug builds is not modelled. The
  model follows release builds, where the counter wraps to zero.
- The key exchange of a D-Bus peer is not part of the session model.
  Associate ignores the outcome of `finish` there, as the source does
  beyond logging it.
- The group owner's reply to an association (the `is_go` branch that sends
  the control message back) is not modelled; it is socket I/O.
- The D-Bus proxies (`wpa_supplicant` objects) and the method calls made on
  them in `group_started`, `connect_to_peer` and `discover_peers` are not
  modelled. The stores keep only the object paths.
- The Android back-ends have no group-finished event; it is commented out
  in the source.
- `peer_identity`, `all_peers`, `own_identity`, `connect_to_peer`,
  `discover_peers`, `listen_to_peer_messages` and `group_task` are not
  modelled. They are lookups without logic, or I/O.
- The physical layer's older peer identity type is modelled only through
  the fields it uses (name and device address).
- The `std::mem::take` of a lost peer's group list is modelled as the list
  being emptied before the peer is removed. No reader can observe the
  intermediate state in the model.

## Findings

| source | as written | input that shows it | evidently intended | confidence | as-written member | corrected member |
|---|---|---|---|---|---|---|
| src/phy/android/mod.rs:381-408 | Associate records the peer in the group but never appends the group to the peer's list, and no other code does, so DeviceLost (605-648) leaves the lost peer counted in that group and message_peer (218-239) always fails with "Peer is not connected to any group" | a device found, a group started, the device associating in that group, then the device lost | the group is appended to the peer's list, as src/platform/android/mod.rs:368-411 does | high (not executed) | PhyAndroid.AsWrittenLostPeerLingers, PhyAndroid.AsWrittenNeverRoutes | PhyAndroid.AssociatedKeepsLinked |
| examples/android/src/main/java/io/crisal/ngndemo/GameState.kt:135 | the guard `turn != MyTurn \|\| turn != OtherTurn` holds in every state, so `tryMove` always returns null and never moves a tile | any board in MyTurn, any direction | return early only outside the two playing states (`&&`), as GameBoard.kt:141 does | high (not executed) | LegacyGame.GameBoard.TryMove | Game.GameBoard.TryMove |
