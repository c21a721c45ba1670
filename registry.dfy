/**
 * The peer and group registry that src/platform/android/mod.rs and
 * src/platform/dbus/mod.rs keep alike: each peer lists the groups it joined,
 * and each group maps its peers to their addresses. The two sides are kept
 * in step by association, by a peer leaving a group, by a device being lost
 * and by a group finishing; this module states that relation and proves
 * that each of those updates keeps it.
 */
module Registry {
  import opened Wrappers
  import opened Handles
  import opened Identity
  import opened Protocol
  import opened Bytes

  type Peers<D> = map<PeerId, PeerInfo<D>>
  type Groups<E> = map<GroupId, GroupInfo<E>>

  /**
   * A group's peers all list that group; a peer that lists a group that still
   * exists is among its peers; and no peer lists a group twice. A peer may list
   * a group that no longer exists.
   */
  ghost predicate Linked<D, E>(peers: Peers<D>, groups: Groups<E>) {
    (forall g :: g in groups ==> groups[g].peers.Keys <= peers.Keys) &&
    (forall p, g :: p in peers && g in groups ==> (g in peers[p].groups <==> p in groups[g].peers)) &&
    (forall p :: p in peers ==> Distinct(peers[p].groups))
  }

  /** Peer `p` taken out of the peers of group `g`, when that group exists. */
  function Leave<E>(groups: Groups<E>, p: PeerId, g: GroupId): Groups<E> {
    if g in groups then groups[g := groups[g].(peers := groups[g].peers - {p})] else groups
  }

  /** Peer `p` taken out of the peers of each group in `gs` that exists. */
  function LeaveGroups<E>(groups: Groups<E>, p: PeerId, gs: seq<GroupId>): (r: Groups<E>)
    ensures r.Keys == groups.Keys
    ensures forall g :: g in r ==>
              r[g] == if g in gs then groups[g].(peers := groups[g].peers - {p}) else groups[g]
  {
    if gs == [] then groups
    else
      var before := LeaveGroups(groups, p, gs[..|gs| - 1]);
      assert forall h :: h in gs <==> h in gs[..|gs| - 1] || h == gs[|gs| - 1];
      Leave(before, p, gs[|gs| - 1])
  }

  /** Leaving one more group is one more step. */
  lemma LeaveGroupsSnoc<E>(groups: Groups<E>, p: PeerId, gs: seq<GroupId>, g: GroupId)
    ensures LeaveGroups(groups, p, gs + [g]) == Leave(LeaveGroups(groups, p, gs), p, g)
  {
    assert (gs + [g])[..|gs|] == gs;
  }

  /**
   * A lost device: its groups, taken from it, no longer count it among their
   * peers, it is gone from the peers, and the relation still holds.
   */
  lemma PeerLostKeepsLinked<D, E>(peers: Peers<D>, groups: Groups<E>, p: PeerId)
    requires Linked(peers, groups) && p in peers
    ensures var after := LeaveGroups(groups, p, peers[p].groups);
            Linked(peers - {p}, after) &&
            forall g :: g in after ==> p !in after[g].peers
  {
    var after := LeaveGroups(groups, p, peers[p].groups);
    var rest := peers - {p};
    forall g | g in after
      ensures p !in after[g].peers && after[g].peers.Keys <= rest.Keys
    {
      if g !in peers[p].groups {
        assert p !in groups[g].peers;
      }
    }
    forall q, g | q in rest && g in after
      ensures g in rest[q].groups <==> q in after[g].peers
    {
      assert rest[q] == peers[q] && q != p;
    }
  }

  /** Every group without the peers in `ps`. */
  function LeaveAll<E>(groups: Groups<E>, ps: set<PeerId>): (r: Groups<E>)
    ensures r.Keys == groups.Keys
  {
    map g | g in groups :: groups[g].(peers := groups[g].peers - ps)
  }

  /**
   * While the relation holds, leaving the groups a peer lists is leaving every
   * group: no other group counts it among its peers.
   */
  lemma LeaveListedIsLeaveAll<D, E>(peers: Peers<D>, groups: Groups<E>, p: PeerId)
    requires Linked(peers, groups) && p in peers
    ensures LeaveGroups(groups, p, peers[p].groups) == LeaveAll(groups, {p})
  {
    var listed := LeaveGroups(groups, p, peers[p].groups);
    forall g | g in groups
      ensures listed[g] == LeaveAll(groups, {p})[g]
    {
      if g !in peers[p].groups {
        assert groups[g].peers - {p} == groups[g].peers;
      }
    }
  }

  /** Peers leaving every group in two rounds is the two sets leaving at once. */
  lemma LeaveAllTwice<E>(groups: Groups<E>, a: set<PeerId>, b: set<PeerId>)
    ensures LeaveAll(LeaveAll(groups, a), b) == LeaveAll(groups, a + b)
  {
    forall g | g in groups
      ensures LeaveAll(LeaveAll(groups, a), b)[g] == LeaveAll(groups, a + b)[g]
    {
      assert groups[g].peers - a - b == groups[g].peers - (a + b);
    }
  }

  /** Peers added with no group keep the relation: no group can count them yet. */
  lemma FreshPeersKeepLinked<D, E>(peers: Peers<D>, more: Peers<D>, groups: Groups<E>)
    requires Linked(peers, groups)
    requires forall p :: p in peers ==> p in more && more[p] == peers[p]
    requires forall p :: p in more && p !in peers ==> more[p].groups == []
    ensures Linked(more, groups)
  {
    forall p, g | p in more && g in groups
      ensures g in more[p].groups <==> p in groups[g].peers
    {
      if p !in peers {
        assert p !in groups[g].peers.Keys;
      }
    }
  }

  /** Every group a peer lists is a handle the group map has handed out. */
  ghost predicate ListsIssued<D>(peers: Peers<D>, next: GroupId) {
    forall p, g :: p in peers && g in peers[p].groups ==> g < next
  }

  /** A new group with no peers keeps the relation when no peer lists its handle. */
  lemma FreshGroupKeepsLinked<D, E>(peers: Peers<D>, groups: Groups<E>, g: GroupId, group: GroupInfo<E>)
    requires Linked(peers, groups) && group.peers == map[]
    requires forall p :: p in peers ==> g !in peers[p].groups
    ensures Linked(peers, groups[g := group])
  {
  }

  /** A peer joining a group already handed out keeps every listed group issued. */
  lemma JoinKeepsIssued<D>(peers: Peers<D>, p: PeerId, g: GroupId, logical: LogicalPeerIdentity, next: GroupId)
    requires ListsIssued(peers, next) && p in peers && g < next
    ensures ListsIssued(peers[p := Join(peers[p], g, logical)], next)
  {
    var peers' := peers[p := Join(peers[p], g, logical)];
    forall q, h | q in peers' && h in peers'[q].groups
      ensures h < next
    {
      if q == p {
        assert peers'[q].groups == peers[p].groups + [g];
      }
    }
  }

  /** `s` without the first occurrence of `x`, as `Vec::remove` at `position`. */
  function RemoveFirst(s: seq<GroupId>, x: GroupId): (r: seq<GroupId>)
    ensures x !in s ==> r == s
    ensures Distinct(s) ==> Distinct(r) && forall y :: y in r <==> y in s && y != x
  {
    if s == [] then []
    else if s[0] == x then
      assert Distinct(s) ==> x !in s[1..] by {
        if Distinct(s) {
          forall i | 0 <= i < |s[1..]|
            ensures s[1..][i] != x
          {
            assert s[1..][i] == s[i + 1];
          }
        }
      }
      s[1..]
    else
      var rest := RemoveFirst(s[1..], x);
      assert Distinct(s) ==> Distinct(s[1..]) && s[0] !in s[1..];
      [s[0]] + rest
  }

  /** Group `g` taken out of the group list of each peer in `ps`. */
  function DropGroup<D>(peers: Peers<D>, g: GroupId, ps: set<PeerId>): (r: Peers<D>)
    ensures r.Keys == peers.Keys
  {
    map p | p in peers :: if p in ps then peers[p].(groups := RemoveFirst(peers[p].groups, g)) else peers[p]
  }

  /**
   * Dropping the group from one more peer, taken from those still to visit, is
   * one more map update.
   */
  lemma DropGroupStep<D>(peers: Peers<D>, g: GroupId, ps: set<PeerId>, remaining: set<PeerId>, q: PeerId)
    requires q in peers && q in remaining && remaining <= ps
    ensures DropGroup(peers, g, ps - (remaining - {q})) ==
            DropGroup(peers, g, ps - remaining)[q := peers[q].(groups := RemoveFirst(peers[q].groups, g))]
  {
    assert ps - (remaining - {q}) == (ps - remaining) + {q};
  }

  /**
   * A finished group: once every peer it held has dropped it from its list,
   * no peer lists it, the group is gone, and the relation still holds.
   */
  lemma GroupFinishedKeepsLinked<D, E>(peers: Peers<D>, groups: Groups<E>, g: GroupId)
    requires Linked(peers, groups) && g in groups
    ensures var after := DropGroup(peers, g, groups[g].peers.Keys);
            Linked(after, groups - {g}) &&
            forall p :: p in after ==> g !in after[p].groups
  {
    var after := DropGroup(peers, g, groups[g].peers.Keys);
    forall p | p in after
      ensures g !in after[p].groups
    {
      if p !in groups[g].peers {
        assert g !in peers[p].groups;
      }
    }
  }

  /** Dropping a group from peers' lists keeps every listed group issued. */
  lemma DropGroupKeepsIssued<D>(peers: Peers<D>, g: GroupId, ps: set<PeerId>, next: GroupId)
    requires ListsIssued(peers, next) && forall p :: p in peers ==> Distinct(peers[p].groups)
    ensures ListsIssued(DropGroup(peers, g, ps), next)
  {
    var after := DropGroup(peers, g, ps);
    forall q, h | q in after && h in after[q].groups
      ensures h < next
    {
      if q in ps {
        assert h in RemoveFirst(peers[q].groups, g);
      }
    }
  }

  /** peer_left: the group leaves the peer's list and the peer leaves the group's peers. */
  function Unlink<D, E>(peers: Peers<D>, groups: Groups<E>, p: PeerId, g: GroupId): (r: (Peers<D>, Groups<E>))
    requires p in peers && g in groups
    ensures r.0.Keys == peers.Keys && r.1.Keys == groups.Keys
    ensures g !in r.0[p].groups && p !in r.1[g].peers
  {
    (peers[p := peers[p].(groups := Without(peers[p].groups, g))],
     groups[g := groups[g].(peers := groups[g].peers - {p})])
  }

  lemma UnlinkKeepsLinked<D, E>(peers: Peers<D>, groups: Groups<E>, p: PeerId, g: GroupId)
    requires Linked(peers, groups) && p in peers && g in groups
    ensures Linked(Unlink(peers, groups, p, g).0, Unlink(peers, groups, p, g).1)
  {
  }

  /** An association: the group joins the end of the peer's list and the peer gets its logical identity. */
  function Join<D>(peer: PeerInfo<D>, g: GroupId, logical: LogicalPeerIdentity): (r: PeerInfo<D>)
    ensures |r.groups| == |peer.groups| + 1 && r.groups[..|peer.groups|] == peer.groups && r.groups[|peer.groups|] == g
    ensures r.identity.logical == Some(logical) && r.identity.physical == peer.identity.physical
  {
    peer.(groups := peer.groups + [g], identity := peer.identity.(logical := Some(logical)))
  }

  /** The group, when it still exists, records the peer's address. */
  function Record<E>(groups: Groups<E>, g: GroupId, p: PeerId, address: PeerAddress): (r: Groups<E>)
    ensures r.Keys == groups.Keys
    ensures g in groups ==> r[g].peers == groups[g].peers[p := PeerGroupInfo(address)]
  {
    if g in groups then groups[g := groups[g].(peers := groups[g].peers[p := PeerGroupInfo(address)])]
    else groups
  }

  /**
   * An admitted association keeps the relation, whether or not the group still
   * exists: the peer did not list the group before.
   */
  lemma AssociateKeepsLinked<D, E>(peers: Peers<D>, groups: Groups<E>, p: PeerId, g: GroupId,
                                   logical: LogicalPeerIdentity, address: PeerAddress)
    requires Linked(peers, groups) && p in peers && g !in peers[p].groups
    ensures Linked(peers[p := Join(peers[p], g, logical)], Record(groups, g, p, address))
  {
    var peers' := peers[p := Join(peers[p], g, logical)];
    var groups' := Record(groups, g, p, address);
    forall h, q | h in groups' && q in groups'[h].peers
      ensures q in peers' && h in peers'[q].groups
    {
      if q != p || h != g {
        assert q in groups[h].peers;
      }
    }
    forall q | q in peers'
      ensures Distinct(peers'[q].groups)
    {
      if q == p {
        assert peers'[q].groups == peers[p].groups + [g];
      }
    }
  }

  /** Whether `p` is a live peer whose physical identity is the one a peer reported as its own. */
  predicate MatchesAt<D>(peers: Peers<D>, p: PeerId, id: PeerOwnIdentifier) {
    p in peers && peers[p].identity.physical.Matches(id)
  }

  /**
   * Where the association loop stops when walking the peers in iteration order:
   * the position of the first peer that matches, or the length when none does.
   */
  function FirstMatch<D>(peers: Peers<D>, order: seq<PeerId>, id: PeerOwnIdentifier): (i: nat)
    ensures i <= |order|
    ensures forall j :: 0 <= j < i ==> !MatchesAt(peers, order[j], id)
    ensures i < |order| ==> MatchesAt(peers, order[i], id)
  {
    if order == [] then 0
    else if MatchesAt(peers, order[0], id) then 0
    else 1 + FirstMatch(peers, order[1..], id)
  }

  /** The association loop: the peers walked in iteration order until one matches. */
  method FindMatch<D>(peers: Peers<D>, order: seq<PeerId>, id: PeerOwnIdentifier) returns (i: nat)
    ensures i == FirstMatch(peers, order, id)
  {
    i := 0;
    while i < |order| && !MatchesAt(peers, order[i], id)
      invariant i <= |order|
      invariant FirstMatch(peers, order, id) >= i
    {
      i := i + 1;
    }
    assert i == FirstMatch(peers, order, id) by {
      if i < |order| {
        assert MatchesAt(peers, order[i], id);
      }
    }
  }

  /**
   * The admission rules of an association: refused when the peer already has a
   * different logical identity, or is already in the group.
   */
  predicate Admits<D>(peer: PeerInfo<D>, g: GroupId, logical: LogicalPeerIdentity) {
    (peer.identity.logical.None? || peer.identity.logical.value == logical) && g !in peer.groups
  }

  /** Admission leaves the peer in the group exactly once, under the logical identity it gave. */
  lemma AdmittedJoinsOnce<D>(peer: PeerInfo<D>, g: GroupId, logical: LogicalPeerIdentity)
    requires Distinct(peer.groups)
    ensures Admits(peer, g, logical) ==> Distinct(Join(peer, g, logical).groups) && g in Join(peer, g, logical).groups
    ensures Admits(peer, g, logical) && peer.identity.logical.Some? ==> Join(peer, g, logical).identity == peer.identity
    ensures !Admits(Join(peer, g, logical), g, logical)
  {
    var joined := Join(peer, g, logical);
    assert joined.groups[|peer.groups|] == g;
    if Admits(peer, g, logical) {
      assert joined.groups == peer.groups + [g];
    }
  }

  /** Why message_peer found no route to a peer. */
  datatype RouteError = PeerLost | NoGroup | GroupNotFound | NoAddress

  /**
   * The route lookup of message_peer: the peer's first group, and the peer's
   * address in that group with the group's scope id. The checks fail in this
   * order: unknown peer, no group, group gone, no address.
   */
  function Route<D, E>(peers: Peers<D>, groups: Groups<E>, id: PeerId): (r: Result<(PeerAddress, u32), RouteError>)
    ensures r == Err(PeerLost) <==> id !in peers
    ensures r == Err(NoGroup) <==> id in peers && peers[id].groups == []
    ensures r == Err(GroupNotFound) <==> id in peers && peers[id].groups != [] && peers[id].groups[0] !in groups
    ensures r.Ok? ==>
              id in peers && peers[id].groups != [] &&
              var g := peers[id].groups[0];
              g in groups && id in groups[g].peers &&
              r.value == (groups[g].peers[id].address, groups[g].scopeId)
  {
    if id !in peers then Err(PeerLost)
    else if peers[id].groups == [] then Err(NoGroup)
    else if peers[id].groups[0] !in groups then Err(GroupNotFound)
    else
      var group := groups[peers[id].groups[0]];
      if id !in group.peers then Err(NoAddress)
      else Ok((group.peers[id].address, group.scopeId))
  }

  /** While the relation holds, a peer whose first group exists always has an address in it. */
  lemma RouteHasAddress<D, E>(peers: Peers<D>, groups: Groups<E>, id: PeerId)
    requires Linked(peers, groups)
    ensures Route(peers, groups, id) != Err(NoAddress)
  {
    if id in peers && peers[id].groups != [] && peers[id].groups[0] in groups {
      assert peers[id].groups[0] in peers[id].groups;
    }
  }

  /**
   * A peer with no group that is admitted to an existing group is then reached
   * at the address and ports it associated from, on that group's interface.
   */
  lemma RouteAfterAssociate<D, E>(peers: Peers<D>, groups: Groups<E>, p: PeerId, g: GroupId,
                                  logical: LogicalPeerIdentity, address: PeerAddress)
    requires p in peers && peers[p].groups == [] && g in groups
    ensures Route(peers[p := Join(peers[p], g, logical)], Record(groups, g, p, address), p) ==
            Ok((address, groups[g].scopeId))
  {
    assert Join(peers[p], g, logical).groups == [g];
  }

  /**
   * message_peer's destination: the recorded address with the peer-to-peer
   * port, on the group's interface.
   */
  function Destination<D, E>(peers: Peers<D>, groups: Groups<E>, id: PeerId): (r: Result<SocketAddr, RouteError>)
    ensures r.Err? <==> Route(peers, groups, id).Err?
    ensures r.Err? ==> r.error == Route(peers, groups, id).error
    ensures r.Ok? ==>
              var (address, scopeId) := Route(peers, groups, id).value;
              r.value.Ip() == address.address && r.value.port == address.ports.p2p &&
              (r.value.SocketV6? ==> r.value.scopeId == scopeId)
  {
    var route := Route(peers, groups, id);
    if route.Err? then Err(route.error)
    else Ok(PeerToSocketAddr(route.value.0.address, route.value.1, route.value.0.ports.p2p))
  }

  /**
   * peer_id_from_address: a peer of the group whose recorded address is the
   * source's, found by walking the group's peer map in its (unspecified) order;
   * nothing when the group is gone or no peer has that address.
   */
  method PeerIdFromAddress<E>(groups: Groups<E>, g: GroupId, ip: IpAddr) returns (r: Option<PeerId>)
    ensures g !in groups ==> r.None?
    ensures r.Some? ==> g in groups && r.value in groups[g].peers && groups[g].peers[r.value].address.address == ip
    ensures r.None? && g in groups ==> forall p :: p in groups[g].peers ==> groups[g].peers[p].address.address != ip
  {
    if g !in groups {
      return None;
    }
    var members := groups[g].peers;
    var remaining := members.Keys;
    while remaining != {}
      invariant remaining <= members.Keys
      invariant forall p :: p in members && p !in remaining ==> members[p].address.address != ip
      decreases remaining
    {
      var p :| p in remaining;
      if members[p].address.address == ip {
        return Some(p);
      }
      remaining := remaining - {p};
    }
    return None;
  }
}
