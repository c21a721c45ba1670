/**
 * The peer and group bookkeeping of the wpa_supplicant session,
 * src/platform/dbus/mod.rs: peers and groups live in two path-indexed stores,
 * and the signal handlers and the control channel update both sides of the
 * peer/group relation. Proxies, the run loop, sockets and the listener calls
 * are not modelled; each handler's store updates are.
 */
module DbusSession {
  import opened Wrappers
  import opened Bytes
  import opened Utils
  import opened Identity
  import opened Handles
  import opened Protocol
  import opened Registry
  import opened Store

  /** DbusPeerData without its proxy. */
  datatype DbusPeerData = DbusPeerData(path: Path)

  /** DbusGroupData without its proxies. */
  datatype DbusGroupData = DbusGroupData(path: Path, ifacePath: Path, goDevAddr: MacAddr)

  type Peer = PeerInfo<DbusPeerData>
  type Group = GroupInfo<DbusGroupData>

  /** One step of that loop: the group, if it still exists, no longer counts the peer. */
  method LeaveOne(groups: DbusStore<Group>, p: PeerId, g: GroupId)
    requires groups.Valid()
    modifies groups
    ensures groups.Valid() && groups.entries.items == Leave(old(groups.entries.items), p, g)
    ensures groups.entries.next == old(groups.entries.next)
  {
    var group := groups.Get(g);
    if group.Some? {
      var _ := groups.Update(g, group.value.(peers := group.value.peers - {p}));
    }
  }

  /**
   * The loop of device_lost over the groups taken from a lost peer: each group
   * that still exists no longer counts the peer among its peers.
   */
  method LeaveEach(groups: DbusStore<Group>, p: PeerId, gs: seq<GroupId>)
    requires groups.Valid()
    modifies groups
    ensures groups.Valid() && groups.entries.items == LeaveGroups(old(groups.entries.items), p, gs)
    ensures groups.entries.next == old(groups.entries.next)
  {
    ghost var groups0 := groups.entries.items;
    var i := 0;
    while i < |gs|
      invariant 0 <= i <= |gs|
      invariant groups.Valid() && groups.entries.items == LeaveGroups(groups0, p, gs[..i])
      invariant groups.entries.next == old(groups.entries.next)
    {
      var g := gs[i];
      assert gs[..i + 1] == gs[..i] + [g];
      LeaveGroupsSnoc(groups0, p, gs[..i], g);
      LeaveOne(groups, p, g);
      i := i + 1;
    }
    assert gs[..|gs|] == gs;
  }

  /**
   * The loop of group_finished over the peers taken from a finished group, in
   * the map's (unspecified) order: each drops the group from its list.
   */
  method DropFromEach(peers: DbusStore<Peer>, g: GroupId, ps: set<PeerId>)
    requires peers.Valid() && ps <= peers.entries.items.Keys
    modifies peers
    ensures peers.Valid() && peers.entries.items == DropGroup(old(peers.entries.items), g, ps)
  {
    ghost var peers0 := peers.entries.items;
    assert ps - ps == {};
    var remaining := ps;
    while remaining != {}
      invariant remaining <= ps
      invariant peers.Valid() && peers.entries.items == DropGroup(peers0, g, ps - remaining)
      decreases remaining
    {
      var q :| q in remaining;
      var peer := peers.entries.items[q];
      DropGroupStep(peers0, g, ps, remaining, q);
      var _ := peers.Update(q, peer.(groups := RemoveFirst(peer.groups, g)));
      remaining := remaining - {q};
    }
  }

  class Session {
    const peers: DbusStore<Peer>
    const groups: DbusStore<Group>

    ghost predicate Valid()
      reads this, peers, groups
    {
      (peers as object) != (groups as object) &&
      peers.Valid() && groups.Valid() &&
      Linked(peers.entries.items, groups.entries.items) &&
      ListsIssued(peers.entries.items, groups.entries.next)
    }

    /** A session starts with no peers and no groups. */
    constructor ()
      ensures Valid() && fresh(peers) && fresh(groups)
      ensures peers.entries.items == map[] && groups.entries.items == map[]
    {
      peers := new DbusStore();
      groups := new DbusStore();
    }

    /**
     * device_found: an address that is neither 6 nor 8 octets long is ignored;
     * a known path keeps its handle and entry; otherwise a peer with that name
     * and address, no logical identity and no group is stored. The result is
     * the handle reported as discovered.
     */
    method DeviceFound(path: Path, name: string, devAddr: seq<byte>) returns (r: Option<PeerId>)
      requires Valid()
      modifies peers
      ensures Valid()
      ensures r.None? <==> ToMacAddr(devAddr).None?
      ensures r.None? || old(peers.IdByPath(path)).Some? ==>
                peers.entries == old(peers.entries) && peers.pathToHandle == old(peers.pathToHandle)
      ensures r.Some? && old(peers.IdByPath(path)).Some? ==> r == old(peers.IdByPath(path))
      ensures r.Some? && old(peers.IdByPath(path)).None? ==>
                r.value !in old(peers.entries.items) &&
                peers.entries.items == old(peers.entries.items)[r.value :=
                  PeerInfo(PeerIdentity(PhysicalPeerIdentity(name, ToMacAddr(devAddr).value), None), [], DbusPeerData(path))]
    {
      var mac := ToMacAddr(devAddr);
      if mac.None? {
        return None;
      }
      var known := peers.IdByPath(path);
      if known.Some? {
        return known;
      }
      var peer := PeerInfo(PeerIdentity(PhysicalPeerIdentity(name, mac.value), None), [], DbusPeerData(path));
      var h := peers.Insert(peer, path);
      r := Some(h);
    }

    /**
     * device_lost: an unknown path changes nothing. Otherwise the peer's groups
     * are taken from it, the peer leaves each of those groups that still
     * exists, and the peer is removed. The result is the lost peer with the
     * groups it was reported to have left.
     */
    method DeviceLost(path: Path) returns (r: Option<(PeerId, seq<GroupId>)>)
      requires Valid()
      modifies peers, groups
      ensures Valid()
      ensures r.None? <==> old(peers.IdByPath(path)).None?
      ensures r.None? ==> peers.entries == old(peers.entries) && groups.entries == old(groups.entries)
      ensures r.Some? ==>
                var (p, gs) := r.value;
                Some(p) == old(peers.IdByPath(path)) && gs == old(peers.entries.items)[p].groups &&
                peers.entries.items == old(peers.entries.items) - {p} &&
                groups.entries.items == LeaveGroups(old(groups.entries.items), p, gs) &&
                forall g :: g in groups.entries.items ==> p !in groups.entries.items[g].peers
    {
      var id := peers.IdByPath(path);
      if id.None? {
        return None;
      }
      var p := id.value;
      var peer := peers.entries.items[p];
      var gs := peer.groups;
      var peers0, groups0 := peers.entries.items, groups.entries.items;
      // std::mem::take of the peer's groups.
      var _ := peers.Update(p, peer.(groups := []));
      LeaveEach(groups, p, gs);
      var _ := peers.Remove(p);
      UpdateThenRemove(peers0, p, peer.(groups := []));
      PeerLostKeepsLinked(peers0, groups0, p);
      r := Some((p, gs));
    }

    /**
     * group_started: a signal without an interface path or a group path, or
     * whose group reports a BSSID or an owner device address that is neither
     * 6 nor 8 octets long, is ignored. Otherwise a group with no peers gets a
     * fresh handle, indexed by its path: its owner's address is the link-local
     * address derived from the BSSID, its role is owner exactly when the
     * reported role is "GO", and it keeps the interface's name and scope id
     * (`ifname` and `if_nametoindex`, here parameters).
     */
    method GroupStarted(ifacePath: Option<Path>, ifaceName: string, scopeId: u32, groupPath: Option<Path>,
                        bssid: seq<byte>, goDevAddr: seq<byte>, role: Option<string>) returns (r: Option<GroupId>)
      requires Valid() && (groupPath.Some? ==> groupPath.value !in groups.pathToHandle)
      modifies groups
      ensures Valid() && peers.entries == old(peers.entries)
      ensures r.None? <==> ifacePath.None? || groupPath.None? || ToMacAddr(bssid).None? || ToMacAddr(goDevAddr).None?
      ensures r.None? ==> groups.entries == old(groups.entries) && groups.pathToHandle == old(groups.pathToHandle)
      ensures r.Some? ==>
                r.value !in old(groups.entries.items) && groups.IdByPath(groupPath.value) == r &&
                groups.entries.items == old(groups.entries.items)[r.value :=
                  GroupInfo(IpAddr.V6(LinkLocalAddress(ToMacAddr(bssid).value)), ifaceName, scopeId,
                            role == Some("GO"), map[],
                            DbusGroupData(groupPath.value, ifacePath.value, ToMacAddr(goDevAddr).value))]
    {
      if ifacePath.None? || groupPath.None? {
        return None;
      }
      var goIfaceAddr := ToMacAddr(bssid);
      if goIfaceAddr.None? {
        return None;
      }
      var devAddr := ToMacAddr(goDevAddr);
      if devAddr.None? {
        return None;
      }
      var isGo := role == Some("GO");
      var goIpAddress := MacAddrToLocalLinkAddress(goIfaceAddr.value);
      var group := GroupInfo(IpAddr.V6(goIpAddress), ifaceName, scopeId, isGo, map[],
                             DbusGroupData(groupPath.value, ifacePath.value, devAddr.value));
      var h := groups.Insert(group, groupPath.value);
      FreshGroupKeepsLinked(peers.entries.items, old(groups.entries.items), h, group);
      r := Some(h);
    }

    /**
     * group_finished: an unknown path changes nothing. Otherwise the group's
     * peers are taken from it, each of them drops the group from its list, and
     * the group is removed. The result is the finished group with the peers
     * reported to have left it.
     */
    method GroupFinished(path: Path) returns (r: Option<(GroupId, set<PeerId>)>)
      requires Valid()
      modifies peers, groups
      ensures Valid()
      ensures r.None? <==> old(groups.IdByPath(path)).None?
      ensures r.None? ==> peers.entries == old(peers.entries) && groups.entries == old(groups.entries)
      ensures r.Some? ==>
                var (g, ps) := r.value;
                Some(g) == old(groups.IdByPath(path)) && ps == old(groups.entries.items)[g].peers.Keys &&
                groups.entries.items == old(groups.entries.items) - {g} &&
                peers.entries.items == DropGroup(old(peers.entries.items), g, ps) &&
                forall p :: p in peers.entries.items ==> g !in peers.entries.items[p].groups
    {
      var id := groups.IdByPath(path);
      if id.None? {
        return None;
      }
      var g := id.value;
      var group := groups.entries.items[g];
      var ps := group.peers.Keys;
      var peers0, groups0 := peers.entries.items, groups.entries.items;
      // std::mem::take of the group's peers.
      var _ := groups.Update(g, group.(peers := map[]));
      DropFromEach(peers, g, ps);
      var _ := groups.Remove(g);
      UpdateThenRemove(groups0, g, group.(peers := map[]));
      GroupFinishedKeepsLinked(peers0, groups0, g);
      DropGroupKeepsIssued(peers0, g, ps, groups.entries.next);
      r := Some((g, ps));
    }

    /**
     * peer_left on group `g`: an unknown path changes nothing, whether or not
     * the group still exists; otherwise the group leaves the peer's list and
     * the peer leaves the group's peers. For a known peer the group must exist
     * (the handler unwraps it).
     */
    method PeerLeft(g: GroupId, path: Path) returns (r: Option<PeerId>)
      requires Valid() && (peers.IdByPath(path).Some? ==> g in groups.entries.items)
      modifies peers, groups
      ensures Valid()
      ensures r == old(peers.IdByPath(path))
      ensures r.None? ==> peers.entries == old(peers.entries) && groups.entries == old(groups.entries)
      ensures r.Some? ==>
                (peers.entries.items, groups.entries.items) ==
                  Unlink(old(peers.entries.items), old(groups.entries.items), r.value, g)
    {
      r := peers.IdByPath(path);
      if r.None? {
        return;
      }
      var p := r.value;
      var peers0, groups0 := peers.entries.items, groups.entries.items;
      var peer := peers.entries.items[p];
      var group := groups.entries.items[g];
      var _ := peers.Update(p, peer.(groups := Without(peer.groups, g)));
      var _ := groups.Update(g, group.(peers := group.peers - {p}));
      UnlinkKeepsLinked(peers0, groups0, p, g);
    }

    /**
     * The Associate control message received on group `g` from `address`: the
     * first peer in iteration order whose physical identity matches is
     * considered; if it is admitted it joins the group and takes the logical
     * identity, and the group, when it still exists, records its address and
     * ports. `joined` is the admitted peer; `notified` says whether the
     * listener hears of it, which needs the group to exist. The group's handle
     * was handed out by GroupStarted.
     */
    method Associate(g: GroupId, physicalId: PeerOwnIdentifier, logicalId: LogicalPeerIdentity,
                     ports: P2pPorts, address: IpAddr) returns (joined: Option<PeerId>, notified: bool)
      requires Valid() && g < groups.entries.next
      modifies peers, groups
      ensures Valid()
      ensures var order := old(peers.entries.order);
              var i := FirstMatch(old(peers.entries.items), order, physicalId);
              joined.Some? <==> i < |order| && Admits(old(peers.entries.items)[order[i]], g, logicalId)
      ensures joined.Some? ==> joined.value == old(peers.entries.order)[FirstMatch(old(peers.entries.items), old(peers.entries.order), physicalId)]
      ensures joined.None? ==> !notified && peers.entries == old(peers.entries) && groups.entries == old(groups.entries)
      ensures joined.Some? ==>
                notified == (g in old(groups.entries.items)) &&
                peers.entries.items == old(peers.entries.items)[joined.value := Join(old(peers.entries.items)[joined.value], g, logicalId)] &&
                groups.entries.items == Record(old(groups.entries.items), g, joined.value, PeerAddress(address, ports))
    {
      var order := peers.entries.order;
      var items := peers.entries.items;
      var i := FindMatch(items, order, physicalId);
      if i == |order| {
        return None, false;
      }
      var p := order[i];
      var peer := items[p];
      if peer.identity.logical.Some? && peer.identity.logical.value != logicalId {
        return None, false;
      }
      if g in peer.groups {
        return None, false;
      }
      var groups0 := groups.entries.items;
      var _ := peers.Update(p, Join(peer, g, logicalId));
      joined := Some(p);
      AssociateKeepsLinked(items, groups0, p, g, logicalId, PeerAddress(address, ports));
      JoinKeepsIssued(items, p, g, logicalId, groups.entries.next);
      var group := groups.Get(g);
      if group.None? {
        return joined, false;
      }
      var _ := groups.Update(g, group.value.(peers := group.value.peers[p := PeerGroupInfo(PeerAddress(address, ports))]));
      notified := true;
    }

    /** message_peer's destination lookup, on the stores' current contents. */
    function MessagePeerDestination(id: PeerId): (r: Result<SocketAddr, RouteError>)
      requires Valid()
      reads this, peers, groups
      ensures r != Err(NoAddress)
      ensures r.Ok? ==> id in peers.entries.items && peers.entries.items[id].groups != []
    {
      RouteHasAddress(peers.entries.items, groups.entries.items, id);
      Destination(peers.entries.items, groups.entries.items, id)
    }

    /** peer_id_from_address: the peer of group `g` that the source address belongs to. */
    method PeerIdFromSource(g: GroupId, source: SocketAddr) returns (r: Option<PeerId>)
      ensures r.Some? ==> g in groups.entries.items && r.value in groups.entries.items[g].peers &&
                          groups.entries.items[g].peers[r.value].address.address == source.Ip()
      ensures r.None? && g in groups.entries.items ==>
                forall p :: p in groups.entries.items[g].peers ==> groups.entries.items[g].peers[p].address.address != source.Ip()
    {
      r := PeerIdFromAddress(groups.entries.items, g, source.Ip());
    }

    /** stop: both stores are cleared. */
    method Stop()
      requires Valid()
      modifies peers, groups
      ensures Valid() && peers.entries.items == map[] && groups.entries.items == map[]
    {
      groups.Clear();
      peers.Clear();
    }
  }
}
