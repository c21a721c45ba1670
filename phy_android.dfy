/**
 * The peer and group bookkeeping of the older JNI physical layer,
 * src/phy/android/mod.rs: discovered devices and started groups live in two
 * handle maps; the run loop's DeviceFound, DeviceLost and GroupStarted
 * notifications and the control channel's Associate message update them, and
 * the message paths look peers up. The JNI calls, the sockets, the tasks and
 * the listener calls are not modelled; each handler's map updates are.
 */
module PhyAndroid {
  import opened Wrappers
  import opened Bytes
  import opened Utils
  import opened Handles
  import opened Protocol
  import Registry

  /** AndroidPeerData: no back-end data. */
  datatype PhyPeerData = PhyPeerData

  /**
   * A discovered device. This module's identity is a name and a device
   * address; it is kept as a peer identity with no logical part.
   */
  type Peer = PeerInfo<PhyPeerData>
  type Peers = map<PeerId, Peer>

  /** This module's PeerAddress: the peer's IPv6 link-local address and its ports. */
  datatype LinkAddress = LinkAddress(linkLocal: Ipv6Addr, ports: P2pPorts)

  /** This module's PeerGroupInfo: the peer's address in the group, once known. */
  datatype GroupPeer = GroupPeer(address: Option<LinkAddress>)

  /** A started group; its connection task is not modelled. */
  datatype Group = Group(goIfaceAddr: MacAddr, ifaceName: string, scopeId: u32, isGo: bool,
                         peers: map<PeerId, GroupPeer>)
  type Groups = map<GroupId, Group>

  /** A freshly discovered device: no logical identity and no group. */
  function NewPeer(identity: PhysicalPeerIdentity): Peer {
    PeerInfo(PeerIdentity(identity, None), [], PhyPeerData)
  }

  /** The identifier find_peer_id_by_dev_addr_in_map looks for. */
  function OwnDevAddr(m: MacAddr): PeerOwnIdentifier {
    DevAddr(Decodable(m))
  }

  /** Whether some peer has device address `m`. */
  ghost predicate Known(peers: Peers, m: MacAddr) {
    exists h :: h in peers && peers[h].identity.physical.devAddr == m
  }

  /** A group's peers are live peers that list the group. */
  ghost predicate CountedListed(peers: Peers, groups: Groups) {
    forall g, p :: g in groups && p in groups[g].peers ==> p in peers && g in peers[p].groups
  }

  /** A peer lists only groups that exist and count it among their peers. */
  ghost predicate ListedCounted(peers: Peers, groups: Groups) {
    forall p, g :: p in peers && g in peers[p].groups ==> g in groups && p in groups[g].peers
  }

  /** No peer lists a group twice. */
  ghost predicate ListsDistinct(peers: Peers) {
    forall p :: p in peers ==> Distinct(peers[p].groups)
  }

  /** The relation between the two maps: both directions of membership, and no repeats. */
  ghost predicate Linked(peers: Peers, groups: Groups) {
    CountedListed(peers, groups) && ListedCounted(peers, groups) && ListsDistinct(peers)
  }

  /** Every peer a group counts has a known address: the association is what adds it. */
  ghost predicate Addressed(groups: Groups) {
    forall g, p :: g in groups && p in groups[g].peers ==> groups[g].peers[p].address.Some?
  }

  /**
   * find_peer_id_by_own_addr_in_map: the first peer in iteration order whose
   * identity matches, or nothing when none does.
   */
  method FindPeerIdByOwnAddr(peers: HandleMap<Peer>, ownId: PeerOwnIdentifier) returns (r: Option<PeerId>)
    requires peers.Valid()
    ensures r.None? <==> forall h :: h in peers.items ==> !Registry.MatchesAt(peers.items, h, ownId)
    ensures r.Some? ==>
              var i := Registry.FirstMatch(peers.items, peers.order, ownId);
              i < |peers.order| && r.value == peers.order[i] && Registry.MatchesAt(peers.items, r.value, ownId)
  {
    var i := Registry.FindMatch(peers.items, peers.order, ownId);
    if i == |peers.order| {
      forall h | h in peers.items
        ensures !Registry.MatchesAt(peers.items, h, ownId)
      {
        var j :| 0 <= j < |peers.order| && peers.order[j] == h;
      }
      return None;
    }
    return Some(peers.order[i]);
  }

  /**
   * find_peer_id_by_dev_addr_in_map: the first peer in iteration order with
   * that device address, found exactly when some peer has it.
   */
  method FindPeerIdByDevAddr(peers: HandleMap<Peer>, m: MacAddr) returns (r: Option<PeerId>)
    requires peers.Valid()
    ensures r.None? <==> !Known(peers.items, m)
    ensures r.Some? ==>
              r.value in peers.items && peers.items[r.value].identity.physical.devAddr == m &&
              r.value == peers.order[Registry.FirstMatch(peers.items, peers.order, OwnDevAddr(m))]
  {
    r := FindPeerIdByOwnAddr(peers, OwnDevAddr(m));
    forall h | h in peers.items
      ensures Registry.MatchesAt(peers.items, h, OwnDevAddr(m)) <==> peers.items[h].identity.physical.devAddr == m
    {
      MatchesOwnReport(peers.items[h].identity.physical, m);
    }
  }

  /** Peer `p` taken out of the peers of group `g`, when that group exists. */
  function Unlink(groups: Groups, p: PeerId, g: GroupId): Groups {
    if g in groups then groups[g := groups[g].(peers := groups[g].peers - {p})] else groups
  }

  /** Peer `p` taken out of the peers of each group in `gs` that exists. */
  function Unlinked(groups: Groups, p: PeerId, gs: seq<GroupId>): (r: Groups)
    ensures r.Keys == groups.Keys
    ensures forall g :: g in r ==>
              r[g] == if g in gs then groups[g].(peers := groups[g].peers - {p}) else groups[g]
  {
    if gs == [] then groups
    else
      var before := Unlinked(groups, p, gs[..|gs| - 1]);
      assert forall h :: h in gs <==> h in gs[..|gs| - 1] || h == gs[|gs| - 1];
      Unlink(before, p, gs[|gs| - 1])
  }

  /** Leaving one more group is one more step. */
  lemma UnlinkedSnoc(groups: Groups, p: PeerId, gs: seq<GroupId>, g: GroupId)
    ensures Unlinked(groups, p, gs + [g]) == Unlink(Unlinked(groups, p, gs), p, g)
  {
    assert (gs + [g])[..|gs|] == gs;
  }

  /**
   * The debug assertion of the DeviceLost loop: while the relation holds, each
   * group the lost peer lists that still exists still counts the peer when the
   * loop reaches it, so every removal finds the peer.
   */
  lemma LostLoopFindsPeer(peers: Peers, groups: Groups, p: PeerId, i: nat)
    requires Linked(peers, groups) && p in peers && i < |peers[p].groups|
    ensures var gs := peers[p].groups;
            var before := Unlinked(groups, p, gs[..i]);
            gs[i] in before ==> p in before[gs[i]].peers
  {
    var gs := peers[p].groups;
    forall j | 0 <= j < i
      ensures gs[..i][j] != gs[i]
    {
      assert gs[j] != gs[i];
    }
    assert gs[i] in gs;
  }

  /**
   * The DeviceLost loop over the groups taken from a lost peer: each group
   * that still exists drops the peer.
   */
  method UnlinkEach(groups: HandleMap<Group>, p: PeerId, gs: seq<GroupId>) returns (r: HandleMap<Group>)
    requires groups.Valid()
    ensures r.Valid() && r.items == Unlinked(groups.items, p, gs) && r.next == groups.next
  {
    r := groups;
    var i := 0;
    while i < |gs|
      invariant 0 <= i <= |gs|
      invariant r.Valid() && r.items == Unlinked(groups.items, p, gs[..i]) && r.next == groups.next
    {
      var g := gs[i];
      assert gs[..i + 1] == gs[..i] + [g];
      UnlinkedSnoc(groups.items, p, gs[..i], g);
      if g in r.items {
        var group := r.items[g];
        r := r.Set(g, group.(peers := group.peers - {p}));
      }
      i := i + 1;
    }
    assert gs[..|gs|] == gs;
  }

  /** A lost peer that leaves every group it lists is in no group afterwards. */
  lemma LostInNoGroup(peers: Peers, groups: Groups, p: PeerId)
    requires Linked(peers, groups) && p in peers
    ensures var after := Unlinked(groups, p, peers[p].groups);
            forall g :: g in after ==> p !in after[g].peers
  {
    var after := Unlinked(groups, p, peers[p].groups);
    forall g | g in after
      ensures p !in after[g].peers
    {
      if g !in peers[p].groups {
        assert p !in groups[g].peers;
      }
    }
  }

  /** After the loss, every peer a group counts is a remaining peer that lists it, with a known address. */
  lemma LostGroupsCountRemaining(peers: Peers, groups: Groups, p: PeerId)
    requires Linked(peers, groups) && Addressed(groups) && p in peers
    ensures var after := Unlinked(groups, p, peers[p].groups);
            Addressed(after) && CountedListed(peers - {p}, after)
  {
    var after := Unlinked(groups, p, peers[p].groups);
    forall g, q | g in after && q in after[g].peers
      ensures q in groups[g].peers && q != p
    {
    }
  }

  /** After the loss, every group a remaining peer lists still counts it. */
  lemma LostPeersListed(peers: Peers, groups: Groups, p: PeerId)
    requires Linked(peers, groups) && p in peers
    ensures var after := Unlinked(groups, p, peers[p].groups);
            ListedCounted(peers - {p}, after) && ListsDistinct(peers - {p})
  {
    var gs := peers[p].groups;
    var after := Unlinked(groups, p, gs);
    var rest := peers - {p};
    forall q, g | q in rest && g in rest[q].groups
      ensures g in after && q in after[g].peers
    {
      assert rest[q] == peers[q] && q != p;
      assert g in groups && q in groups[g].peers;
      assert after[g].peers == if g in gs then groups[g].peers - {p} else groups[g].peers;
    }
  }

  /**
   * A lost peer that leaves every group it lists is in no group afterwards;
   * the peers that remain stay linked, and the groups keep their addresses.
   */
  lemma LostUnlinks(peers: Peers, groups: Groups, p: PeerId)
    requires Linked(peers, groups) && Addressed(groups) && p in peers
    ensures var after := Unlinked(groups, p, peers[p].groups);
            Linked(peers - {p}, after) && Addressed(after) &&
            forall g :: g in after ==> p !in after[g].peers
  {
    LostInNoGroup(peers, groups, p);
    LostGroupsCountRemaining(peers, groups, p);
    LostPeersListed(peers, groups, p);
  }

  /** The group, which exists, records the peer's address, counting the peer from now on. */
  function Recorded(groups: Groups, g: GroupId, p: PeerId, address: LinkAddress): Groups
    requires g in groups
  {
    groups[g := groups[g].(peers := groups[g].peers[p := GroupPeer(Some(address))])]
  }

  /** The peer, which exists, lists one more group. */
  function Listed(peers: Peers, p: PeerId, g: GroupId): Peers
    requires p in peers
  {
    peers[p := peers[p].(groups := peers[p].groups + [g])]
  }

  /** An entry that already has a known address other than the new one refuses the re-association. */
  predicate Forbids(group: Group, p: PeerId, address: LinkAddress) {
    p in group.peers && group.peers[p].address.Some? && group.peers[p].address.value != address
  }

  /**
   * The association as src/phy/android/mod.rs writes it: the group records
   * the peer, and the peer's own list of groups is left as it was.
   */
  function AssociatedAsWritten(peers: Peers, groups: Groups, g: GroupId, p: PeerId, address: LinkAddress): (r: (Peers, Groups))
    requires g in groups
    ensures r.0 == peers && r.1.Keys == groups.Keys
    ensures p in r.1[g].peers && r.1[g].peers[p].address == Some(address)
  {
    (peers, Recorded(groups, g, p, address))
  }

  /**
   * As written, a device that associates with a group and is then lost stays
   * among the group's peers: its own list never named the group, so the loss
   * unlinks nothing, and the relation the loss relies on is broken.
   */
  lemma AsWrittenLostPeerLingers()
    ensures var mac := MacAddr.V6([0, 0, 0, 0, 0, 1]);
            var peers: Peers := map[0 := NewPeer(PhysicalPeerIdentity("peer", mac))];
            var groups: Groups := map[7 := Group(mac, "p2p-wlan0-0", 3, true, map[])];
            var after := AssociatedAsWritten(peers, groups, 7, 0, LinkAddress(Ipv6Addr(seq(16, _ => 0)), P2pPorts(1, 2)));
            Linked(peers, groups) && !Linked(after.0, after.1) &&
            0 in Unlinked(after.1, 0, after.0[0].groups)[7].peers
  {
    var mac := MacAddr.V6([0, 0, 0, 0, 0, 1]);
    var peers: Peers := map[0 := NewPeer(PhysicalPeerIdentity("peer", mac))];
    var groups: Groups := map[7 := Group(mac, "p2p-wlan0-0", 3, true, map[])];
    var after := AssociatedAsWritten(peers, groups, 7, 0, LinkAddress(Ipv6Addr(seq(16, _ => 0)), P2pPorts(1, 2)));
    assert 0 in after.1[7].peers && after.0[0].groups == [];
  }

  /** After the corrected association, every peer a group counts lists it, with a known address. */
  lemma AssociatedGroupsCounted(peers: Peers, groups: Groups, g: GroupId, p: PeerId, address: LinkAddress)
    requires Linked(peers, groups) && Addressed(groups) && p in peers && g in groups
    ensures var after := Recorded(groups, g, p, address);
            var peers' := if p !in groups[g].peers then Listed(peers, p, g) else peers;
            Addressed(after) && CountedListed(peers', after)
  {
    var after := Recorded(groups, g, p, address);
    var peers' := if p !in groups[g].peers then Listed(peers, p, g) else peers;
    forall h, q | h in after && q in after[h].peers
      ensures q in peers' && h in peers'[q].groups
    {
      if q != p || h != g {
        assert q in groups[h].peers;
      }
    }
  }

  /** After the corrected association, every group a peer lists counts it, and lists no group twice. */
  lemma AssociatedPeersListed(peers: Peers, groups: Groups, g: GroupId, p: PeerId, address: LinkAddress)
    requires Linked(peers, groups) && p in peers && g in groups
    ensures var after := Recorded(groups, g, p, address);
            var peers' := if p !in groups[g].peers then Listed(peers, p, g) else peers;
            ListedCounted(peers', after) && ListsDistinct(peers')
  {
    var isNew := p !in groups[g].peers;
    var after := Recorded(groups, g, p, address);
    var peers' := if isNew then Listed(peers, p, g) else peers;
    forall q, h | q in peers' && h in peers'[q].groups
      ensures h in after && q in after[h].peers
    {
      if q == p && isNew {
        assert h in peers[p].groups || h == g;
      }
    }
    forall q | q in peers'
      ensures Distinct(peers'[q].groups)
    {
      if q == p && isNew {
        assert g !in peers[p].groups;
      }
    }
  }

  /**
   * The corrected association keeps the relation: a peer new to the group
   * also lists the group, and one already in it only has its address replaced.
   */
  lemma AssociatedKeepsLinked(peers: Peers, groups: Groups, g: GroupId, p: PeerId, address: LinkAddress)
    requires Linked(peers, groups) && Addressed(groups) && p in peers && g in groups
    ensures var isNew := p !in groups[g].peers;
            var after := Recorded(groups, g, p, address);
            Linked(if isNew then Listed(peers, p, g) else peers, after) && Addressed(after)
  {
    AssociatedGroupsCounted(peers, groups, g, p, address);
    AssociatedPeersListed(peers, groups, g, p, address);
  }

  /** A new peer with no group, under a handle no group counts, keeps the relation. */
  lemma FreshPeerKeepsLinked(peers: Peers, groups: Groups, id: PeerId, peer: Peer)
    requires Linked(peers, groups) && id !in peers && peer.groups == []
    ensures Linked(peers[id := peer], groups)
  {
    var peers' := peers[id := peer];
    forall g, q | g in groups && q in groups[g].peers
      ensures q in peers' && g in peers'[q].groups
    {
      assert q in peers && q != id;
    }
  }

  /** A new group with no peers, under a handle no peer lists, keeps the relation. */
  lemma FreshGroupKeepsLinked(peers: Peers, groups: Groups, id: GroupId, group: Group)
    requires Linked(peers, groups) && Addressed(groups) && id !in groups && group.peers == map[]
    ensures Linked(peers, groups[id := group]) && Addressed(groups[id := group])
  {
    var groups' := groups[id := group];
    forall q, g | q in peers && g in peers[q].groups
      ensures g in groups' && q in groups'[g].peers
    {
      assert g in groups && g != id;
    }
  }

  /** Whether the group peer's known address has that link-local address. */
  predicate HasAddress(info: GroupPeer, ip: Ipv6Addr) {
    info.address.Some? && info.address.value.linkLocal == ip
  }

  /**
   * The loop of peer_id_from_address over a group's peers, in the map's
   * (unspecified) order: a peer whose known address is `ip`, or nothing when
   * none has it.
   */
  method FindByAddress(peers: map<PeerId, GroupPeer>, ip: Ipv6Addr) returns (r: Option<PeerId>)
    ensures r.Some? ==> r.value in peers && HasAddress(peers[r.value], ip)
    ensures r.None? ==> forall p :: p in peers ==> !HasAddress(peers[p], ip)
  {
    var remaining := peers.Keys;
    while remaining != {}
      invariant remaining <= peers.Keys
      invariant forall p :: p in peers && p !in remaining ==> !HasAddress(peers[p], ip)
      decreases remaining
    {
      var p :| p in remaining;
      if HasAddress(peers[p], ip) {
        return Some(p);
      }
      remaining := remaining - {p};
    }
    return None;
  }

  /**
   * As written, nothing ever adds to a peer's list of groups: peers are found
   * with none, and an association leaves the list as it was. So message_peer
   * never finds a route: every live peer fails for want of a group.
   */
  lemma AsWrittenNeverRoutes(peers: Peers, groups: Groups, g: GroupId, p: PeerId, address: LinkAddress, id: PeerId)
    requires g in groups && forall q :: q in peers ==> peers[q].groups == []
    ensures var after := AssociatedAsWritten(peers, groups, g, p, address);
            (forall q :: q in after.0 ==> after.0[q].groups == []) &&
            Route(after.0, after.1, id) == if id in peers then Err(Registry.NoGroup) else Err(Registry.PeerLost)
  {
  }

  /**
   * The route lookup of message_peer: the peer's first group, and the peer's
   * known address in that group, as an IPv6 socket on the peer's p2p port with
   * no flow label and the group's scope id. The checks fail in this order:
   * unknown peer, no group, group gone, no known address.
   */
  function Route(peers: Peers, groups: Groups, id: PeerId): (r: Result<SocketAddr, Registry.RouteError>)
    ensures r == Err(Registry.PeerLost) <==> id !in peers
    ensures r == Err(Registry.NoGroup) <==> id in peers && peers[id].groups == []
    ensures r == Err(Registry.GroupNotFound) <==>
              id in peers && peers[id].groups != [] && peers[id].groups[0] !in groups
    ensures r == Err(Registry.NoAddress) <==>
              id in peers && peers[id].groups != [] && peers[id].groups[0] in groups &&
              (id !in groups[peers[id].groups[0]].peers || groups[peers[id].groups[0]].peers[id].address.None?)
    ensures r.Ok? ==>
              id in peers && peers[id].groups != [] &&
              var group := groups[peers[id].groups[0]];
              id in group.peers && group.peers[id].address.Some? &&
              var address := group.peers[id].address.value;
              r.value == SocketV6(address.linkLocal, address.ports.p2p, 0, group.scopeId)
  {
    if id !in peers then Err(Registry.PeerLost)
    else if peers[id].groups == [] then Err(Registry.NoGroup)
    else if peers[id].groups[0] !in groups then Err(Registry.GroupNotFound)
    else
      var group := groups[peers[id].groups[0]];
      if id !in group.peers || group.peers[id].address.None? then Err(Registry.NoAddress)
      else
        var address := group.peers[id].address.value;
        Ok(SocketV6(address.linkLocal, address.ports.p2p, 0, group.scopeId))
  }

  /** While the relation holds, a live peer with a group always has a route. */
  lemma LinkedRoutes(peers: Peers, groups: Groups, id: PeerId)
    requires Linked(peers, groups) && Addressed(groups)
    ensures Route(peers, groups, id).Ok? <==> id in peers && peers[id].groups != []
  {
    if id in peers && peers[id].groups != [] {
      var g := peers[id].groups[0];
      assert g in peers[id].groups;
    }
  }

  class Session {
    var peers: HandleMap<Peer>
    var groups: HandleMap<Group>

    ghost predicate Valid()
      reads this
    {
      peers.Valid() && groups.Valid() && Linked(peers.items, groups.items) && Addressed(groups.items)
    }

    /** new_sync: no peers and no groups. */
    constructor ()
      ensures Valid() && peers.items == map[] && groups.items == map[]
    {
      peers := EmptyHandleMap();
      groups := EmptyHandleMap();
    }

    /**
     * DeviceFound: a known device address keeps the handle of the first peer
     * with it, and nothing changes; otherwise the device is stored as a new
     * peer with no group. The result is the handle reported as discovered.
     */
    method DeviceFound(identity: PhysicalPeerIdentity) returns (id: PeerId)
      requires Valid()
      modifies this
      ensures Valid() && groups == old(groups)
      ensures Known(old(peers.items), identity.devAddr) ==>
                peers == old(peers) && id in peers.items &&
                peers.items[id].identity.physical.devAddr == identity.devAddr &&
                id == peers.order[Registry.FirstMatch(peers.items, peers.order, OwnDevAddr(identity.devAddr))]
      ensures !Known(old(peers.items), identity.devAddr) ==>
                id !in old(peers.items) && peers.items == old(peers.items)[id := NewPeer(identity)]
    {
      var found := FindPeerIdByDevAddr(peers, identity.devAddr);
      if found.Some? {
        return found.value;
      }
      var inserted := peers.Insert(NewPeer(identity));
      FreshPeerKeepsLinked(peers.items, groups.items, inserted.0, NewPeer(identity));
      id, peers := inserted.0, inserted.1;
    }

    /**
     * DeviceLost: an unknown device changes nothing; otherwise the first peer
     * with that device address leaves each group it lists and then the map.
     * The result is the peer and the groups it left, which the listener hears of.
     */
    method DeviceLost(identity: PhysicalPeerIdentity) returns (r: Option<(PeerId, seq<GroupId>)>)
      requires Valid()
      modifies this
      ensures Valid()
      ensures r.None? <==> !Known(old(peers.items), identity.devAddr)
      ensures r.None? ==> peers == old(peers) && groups == old(groups)
      ensures r.Some? ==>
                var p := r.value.0;
                p in old(peers.items) && old(peers.items)[p].identity.physical.devAddr == identity.devAddr &&
                p == old(peers.order)[Registry.FirstMatch(old(peers.items), old(peers.order), OwnDevAddr(identity.devAddr))] &&
                r.value.1 == old(peers.items)[p].groups &&
                peers.items == old(peers.items) - {p} &&
                groups.items == Unlinked(old(groups.items), p, r.value.1) &&
                forall g :: g in groups.items ==> p !in groups.items[g].peers
    {
      var found := FindPeerIdByDevAddr(peers, identity.devAddr);
      if found.None? {
        return None;
      }
      var p := found.value;
      var gs := peers.items[p].groups;
      LostUnlinks(peers.items, groups.items, p);
      // The source skips the loop, and the groups' lock, when the list is empty.
      var left := UnlinkEach(groups, p, gs);
      var removed := peers.Remove(p);
      peers, groups := removed.1, left;
      r := Some((p, gs));
    }

    /** GroupStarted: the group gets a new handle, with no peers yet. */
    method GroupStarted(goIfaceAddr: MacAddr, ifaceName: string, isGo: bool, scopeId: u32) returns (id: GroupId)
      requires Valid()
      modifies this
      ensures Valid() && peers == old(peers)
      ensures id !in old(groups.items) &&
              groups.items == old(groups.items)[id := Group(goIfaceAddr, ifaceName, scopeId, isGo, map[])]
    {
      var inserted := groups.Insert(Group(goIfaceAddr, ifaceName, scopeId, isGo, map[]));
      FreshGroupKeepsLinked(peers.items, groups.items, inserted.0, Group(goIfaceAddr, ifaceName, scopeId, isGo, map[]));
      id, groups := inserted.0, inserted.1;
    }

    /**
     * The Associate control message received on group `g` from `source`: the
     * first peer in iteration order that matches `ownId` is considered; an
     * IPv4 source, a group gone and an entry with another known address each
     * refuse it; otherwise the group records the address, and a peer new to
     * the group also lists it. `Accepted` says whether the connection is new,
     * which is when the listener hears of it, and whether this device owns the
     * group and so replies with its own association.
     */
    method Associate(g: GroupId, ownId: PeerOwnIdentifier, ports: P2pPorts, source: IpAddr) returns (r: Association)
      requires Valid()
      modifies this
      ensures Valid()
      ensures var i := Registry.FirstMatch(old(peers.items), old(peers.order), ownId);
              (r == UnknownPeer <==> i == |old(peers.order)|) &&
              (r == Ipv4Source <==> i < |old(peers.order)| && source.V4?) &&
              (r == GroupGone <==> i < |old(peers.order)| && source.V6? && g !in old(groups.items)) &&
              (r == Reassociation <==>
                 i < |old(peers.order)| && source.V6? && g in old(groups.items) &&
                 Forbids(old(groups.items)[g], old(peers.order)[i], LinkAddress(source.v6, ports))) &&
              (r.Accepted? ==> r.peer == old(peers.order)[i])
      ensures !r.Accepted? ==> peers == old(peers) && groups == old(groups)
      ensures r.Accepted? ==>
                source.V6? && g in old(groups.items) && r.peer in old(peers.items) &&
                r.newConnection == (r.peer !in old(groups.items)[g].peers) &&
                r.replies == old(groups.items)[g].isGo &&
                groups.items == Recorded(old(groups.items), g, r.peer, LinkAddress(source.v6, ports)) &&
                peers.items == if r.newConnection then Listed(old(peers.items), r.peer, g) else old(peers.items)
    {
      var found := FindPeerIdByOwnAddr(peers, ownId);
      if found.None? {
        return UnknownPeer;
      }
      if source.V4? {
        return Ipv4Source;
      }
      if g !in groups.items {
        return GroupGone;
      }
      var p, group, address := found.value, groups.items[g], LinkAddress(source.v6, ports);
      if Forbids(group, p, address) {
        return Reassociation;
      }
      var isNew := p !in group.peers;
      AssociatedKeepsLinked(peers.items, groups.items, g, p, address);
      groups := groups.Set(g, group.(peers := group.peers[p := GroupPeer(Some(address))]));
      if isNew {
        var peer := peers.items[p];
        peers := peers.Set(p, peer.(groups := peer.groups + [g]));
      }
      r := Accepted(p, isNew, group.isGo);
    }

    /**
     * peer_id_from_address: an IPv4 source and a group gone give nothing;
     * otherwise a peer of the group whose known address is the source's, or
     * nothing when none has it. Such a peer is a live one.
     */
    method PeerIdFromAddress(g: GroupId, source: SocketAddr) returns (r: Option<PeerId>)
      requires Valid()
      ensures source.SocketV4? || g !in groups.items ==> r.None?
      ensures r.Some? ==>
                source.SocketV6? && g in groups.items && r.value in groups.items[g].peers &&
                HasAddress(groups.items[g].peers[r.value], source.ip6) && r.value in peers.items
      ensures r.None? && source.SocketV6? && g in groups.items ==>
                forall p :: p in groups.items[g].peers ==> !HasAddress(groups.items[g].peers[p], source.ip6)
    {
      if source.SocketV4? {
        return None;
      }
      if g !in groups.items {
        return None;
      }
      r := FindByAddress(groups.items[g].peers, source.ip6);
    }

    /** message_peer's destination lookup: while the relation holds, every live peer with a group has one. */
    function MessagePeerDestination(id: PeerId): (r: Result<SocketAddr, Registry.RouteError>)
      requires Valid()
      reads this
      ensures r.Ok? <==> id in peers.items && peers.items[id].groups != []
      ensures r.Err? ==> r.error == Registry.PeerLost || r.error == Registry.NoGroup
    {
      LinkedRoutes(peers.items, groups.items, id);
      Route(peers.items, groups.items, id)
    }

    /** stop: both maps are cleared. */
    method Stop()
      requires Valid()
      modifies this
      ensures Valid() && peers.items == map[] && groups.items == map[]
    {
      groups := groups.Clear();
      peers := peers.Clear();
    }
  }

  /** How an Associate control message ended. */
  datatype Association =
    | UnknownPeer
    | Ipv4Source
    | GroupGone
    | Reassociation
    | Accepted(peer: PeerId, newConnection: bool, replies: bool)
}
