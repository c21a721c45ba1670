/**
 * The peer and group bookkeeping of the WifiP2pManager session,
 * src/platform/android/mod.rs: peers live in a handle map indexed by device
 * address, groups in a second handle map, and the run loop and the control
 * channel update both sides of the peer/group relation. JNI calls, sockets,
 * tasks and the listener calls are not modelled; each handler's updates of
 * the two maps are.
 */
module AndroidSession {
  import opened Wrappers
  import opened Bytes
  import opened Utils
  import opened Identity
  import opened Handles
  import opened Protocol
  import opened Registry

  datatype AndroidPeerData = AndroidPeerData
  datatype AndroidGroupData = AndroidGroupData

  type Peer = PeerInfo<AndroidPeerData>
  type Group = GroupInfo<AndroidGroupData>

  /** The entry UpdateDevices stores for a device it has not seen before. */
  function NewPeer(identity: PhysicalPeerIdentity): Peer {
    PeerInfo(PeerIdentity(identity, None), [], AndroidPeerData)
  }

  /**
   * The position of the first report of device address `m` in a device list,
   * or the list's length when `m` is not reported.
   */
  function FirstReport(identities: seq<PhysicalPeerIdentity>, m: MacAddr): (i: nat)
    ensures i <= |identities|
    ensures forall j :: 0 <= j < i ==> identities[j].devAddr != m
    ensures i < |identities| ==> identities[i].devAddr == m
  {
    if identities == [] then 0
    else if identities[0].devAddr == m then 0
    else 1 + FirstReport(identities[1..], m)
  }

  /** A subset has at most as many elements as the set, and only the set itself has as many. */
  lemma {:induction false} SubsetOfSameSize<T>(a: set<T>, b: set<T>)
    requires a <= b
    ensures |a| <= |b| && (|a| == |b| ==> a == b)
  {
    if a != {} {
      var x :| x in a;
      SubsetOfSameSize(a - {x}, b - {x});
    }
  }

  /** The peers of `peers` in `ps` with their group lists taken (`std::mem::take`). */
  function TakeGroups(peers: Peers<AndroidPeerData>, ps: set<PeerId>): (r: Peers<AndroidPeerData>)
    ensures r.Keys == peers.Keys
    ensures forall p :: p in r && p !in ps ==> r[p] == peers[p]
    ensures forall p :: p in r && p in ps ==> r[p] == peers[p].(groups := [])
  {
    map p | p in peers :: if p in ps then peers[p].(groups := []) else peers[p]
  }

  /** `index` maps the device address of each peer of `entries` outside `pending` to its handle, and nothing else. */
  ghost predicate Indexed(entries: HandleMap<Peer>, index: map<MacAddr, PeerId>, pending: set<PeerId>) {
    entries.Valid() && pending <= entries.items.Keys &&
    (forall m :: m in index ==>
      index[m] in entries.items && index[m] !in pending &&
      entries.items[index[m]].identity.physical.devAddr == m) &&
    (forall h :: h in entries.items && h !in pending ==>
      entries.items[h].identity.physical.devAddr in index &&
      index[entries.items[h].identity.physical.devAddr] == h)
  }

  /** The loop over the groups a lost peer left: each that still exists no longer counts it. */
  method LeaveEach(groups: HandleMap<Group>, p: PeerId, gs: seq<GroupId>) returns (r: HandleMap<Group>)
    requires groups.Valid()
    ensures r.Valid() && r.items == LeaveGroups(groups.items, p, gs) && r.next == groups.next
  {
    r := groups;
    var i := 0;
    while i < |gs|
      invariant 0 <= i <= |gs|
      invariant r.Valid() && r.items == LeaveGroups(groups.items, p, gs[..i]) && r.next == groups.next
    {
      var g := gs[i];
      assert gs[..i + 1] == gs[..i] + [g];
      LeaveGroupsSnoc(groups.items, p, gs[..i], g);
      if g in r.items {
        var group := r.items[g];
        r := r.Set(g, group.(peers := group.peers - {p}));
      }
      i := i + 1;
    }
    assert gs[..|gs|] == gs;
  }

  /** Reading one more report adds exactly its address to the addresses reported so far. */
  lemma FirstReportStep(identities: seq<PhysicalPeerIdentity>, k: nat, m: MacAddr)
    requires k < |identities|
    ensures FirstReport(identities, m) < k + 1 <==> FirstReport(identities, m) < k || m == identities[k].devAddr
  {
  }

  /** What the first loop of UpdateDevices carries: the map, the index, the peers joined and the addresses seen. */
  datatype Registration = Registration(stored: HandleMap<Peer>, index: map<MacAddr, PeerId>,
                                       joined: seq<PeerId>, seen: set<MacAddr>)

  /**
   * One report: its address is seen; a known address changes nothing else; an
   * unknown one gets a new peer under a fresh handle, indexed and joined.
   */
  function RegisterStep(s: Registration, identity: PhysicalPeerIdentity): (r: Registration)
    requires s.stored.Valid()
    ensures r.stored.Valid()
    ensures r.seen == s.seen + {identity.devAddr}
  {
    var m := identity.devAddr;
    if m in s.index then s.(seen := s.seen + {m})
    else
      var inserted := s.stored.Insert(NewPeer(identity));
      Registration(inserted.1, s.index[m := inserted.0], s.joined + [inserted.0], s.seen + {m})
  }

  /** The first `k` reports, from `s`. */
  function RegisterPrefix(s: Registration, identities: seq<PhysicalPeerIdentity>, k: nat): (r: Registration)
    requires s.stored.Valid() && k <= |identities|
    ensures r.stored.Valid()
  {
    if k == 0 then s else RegisterStep(RegisterPrefix(s, identities, k - 1), identities[k - 1])
  }

  /** One report keeps the index in step with the map. */
  lemma RegisterStepIndexed(s: Registration, identity: PhysicalPeerIdentity)
    requires Indexed(s.stored, s.index, {})
    ensures var r := RegisterStep(s, identity); Indexed(r.stored, r.index, {})
  {
  }

  /** The index stays in step with the map. */
  lemma {:induction false} RegisteredIndexed(s: Registration, identities: seq<PhysicalPeerIdentity>, k: nat)
    requires Indexed(s.stored, s.index, {}) && k <= |identities|
    ensures var r := RegisterPrefix(s, identities, k); Indexed(r.stored, r.index, {})
  {
    if k > 0 {
      RegisteredIndexed(s, identities, k - 1);
      RegisterStepIndexed(RegisterPrefix(s, identities, k - 1), identities[k - 1]);
    }
  }

  /** The addresses seen are those reported. */
  lemma {:induction false} RegisteredSeen(s: Registration, identities: seq<PhysicalPeerIdentity>, k: nat, m: MacAddr)
    requires s.stored.Valid() && k <= |identities| && s.seen == {}
    ensures m in RegisterPrefix(s, identities, k).seen <==> FirstReport(identities, m) < k
  {
    if k > 0 {
      RegisteredSeen(s, identities, k - 1, m);
      FirstReportStep(identities, k - 1, m);
    }
  }

  /** A known address keeps its handle; an address is indexed exactly when it was known or reported. */
  lemma {:induction false} RegisteredIndex(s: Registration, identities: seq<PhysicalPeerIdentity>, k: nat, m: MacAddr)
    requires s.stored.Valid() && k <= |identities| && s.seen == {}
    ensures var r := RegisterPrefix(s, identities, k);
            (m in r.index <==> m in s.index || m in r.seen) &&
            (m in s.index ==> r.index[m] == s.index[m])
  {
    if k > 0 {
      RegisteredIndex(s, identities, k - 1, m);
    }
  }

  /**
   * Registration from the peers `items0`: they stay as they are, and the map
   * gains exactly the joined peers, each once and each new.
   */
  ghost predicate GrownBy(items0: Peers<AndroidPeerData>, r: Registration) {
    (forall h :: h in items0 ==> h in r.stored.items && r.stored.items[h] == items0[h]) &&
    (forall h :: h in r.stored.items <==> h in items0 || h in r.joined) &&
    Distinct(r.joined) && (forall h :: h in r.joined ==> h !in items0)
  }

  /** Stored peers stay as they are; the map gains exactly the joined peers, each once and each new. */
  lemma {:induction false} RegisteredPeers(s: Registration, identities: seq<PhysicalPeerIdentity>, k: nat)
    requires s.stored.Valid() && k <= |identities| && s.joined == []
    ensures GrownBy(s.stored.items, RegisterPrefix(s, identities, k))
  {
    if k > 0 {
      var before := RegisterPrefix(s, identities, k - 1);
      assert RegisterPrefix(s, identities, k) == RegisterStep(before, identities[k - 1]);
      RegisteredPeers(s, identities, k - 1);
      RegisterStepPeers(before, identities[k - 1], s.stored.items);
    }
  }

  /** One report keeps the stored peers, and a peer it adds is new and joined once. */
  lemma RegisterStepPeers(s: Registration, identity: PhysicalPeerIdentity, items0: Peers<AndroidPeerData>)
    requires s.stored.Valid() && GrownBy(items0, s)
    ensures GrownBy(items0, RegisterStep(s, identity))
  {
    if identity.devAddr !in s.index {
      var h := s.stored.Insert(NewPeer(identity)).0;
      assert RegisterStep(s, identity).joined == s.joined + [h];
      assert h !in s.joined;
    }
  }

  /** An address newly indexed names a peer reported joined. */
  lemma {:induction false} RegisteredJoined(s: Registration, identities: seq<PhysicalPeerIdentity>, k: nat, m: MacAddr)
    requires s.stored.Valid() && k <= |identities|
    ensures var r := RegisterPrefix(s, identities, k);
            m in r.index && m !in s.index ==> r.index[m] in r.joined
  {
    if k > 0 {
      RegisteredJoined(s, identities, k - 1, m);
    }
  }
  /** Every peer reported joined is stored, under an address that was reported. */
  lemma {:induction false} RegisteredJoinedSeen(s: Registration, identities: seq<PhysicalPeerIdentity>, k: nat, h: PeerId)
    requires s.stored.Valid() && k <= |identities| && s.joined == []
    ensures var r := RegisterPrefix(s, identities, k);
            h in r.joined ==> h in r.stored.items && r.stored.items[h].groups == [] &&
                              r.stored.items[h].identity.physical.devAddr in r.seen
  {
    if k > 0 {
      RegisteredJoinedSeen(s, identities, k - 1, h);
      var before := RegisterPrefix(s, identities, k - 1);
      var m := identities[k - 1].devAddr;
      if m !in before.index {
        var inserted := before.stored.Insert(NewPeer(identities[k - 1]));
        assert RegisterPrefix(s, identities, k).joined == before.joined + [inserted.0];
      }
    }
  }

  /** An address unknown before the `k`-th report and reported there is first reported there. */
  lemma NewAddressFirstReport(s: Registration, identities: seq<PhysicalPeerIdentity>, k: nat, m: MacAddr)
    requires s.stored.Valid() && 0 < k <= |identities| && s.seen == {}
    requires m == identities[k - 1].devAddr && m !in s.index && m !in RegisterPrefix(s, identities, k - 1).index
    ensures FirstReport(identities, m) == k - 1
  {
    RegisteredIndex(s, identities, k - 1, m);
    RegisteredSeen(s, identities, k - 1, m);
    FirstReportStep(identities, k - 1, m);
  }

  /** An address newly indexed names a new peer made from the address's first report. */
  lemma {:induction false} RegisteredNew(s: Registration, identities: seq<PhysicalPeerIdentity>, k: nat, m: MacAddr)
    requires s.stored.Valid() && k <= |identities| && s.seen == {}
    ensures var r := RegisterPrefix(s, identities, k);
            m in r.index && m !in s.index ==>
              r.index[m] in r.stored.items && FirstReport(identities, m) < k &&
              r.stored.items[r.index[m]] == NewPeer(identities[FirstReport(identities, m)])
  {
    if k > 0 {
      var before := RegisterPrefix(s, identities, k - 1);
      RegisteredNew(s, identities, k - 1, m);
      RegisteredIndex(s, identities, k, m);
      RegisteredSeen(s, identities, k, m);
      if FirstReport(identities, m) < k {
        if m !in before.index && m == identities[k - 1].devAddr && m !in s.index {
          NewAddressFirstReport(s, identities, k, m);
        }
        RegisterStepEntry(before, identities[k - 1], s.index, m, identities[FirstReport(identities, m)]);
      }
    }
  }

  /**
   * One report keeps the entry of an address indexed since `index0`, and
   * indexes a new address under a new peer made from its report.
   */
  lemma RegisterStepEntry(s: Registration, identity: PhysicalPeerIdentity, index0: map<MacAddr, PeerId>,
                          m: MacAddr, first: PhysicalPeerIdentity)
    requires s.stored.Valid()
    requires m in s.index && m !in index0 ==>
               s.index[m] in s.stored.items && s.stored.items[s.index[m]] == NewPeer(first)
    requires m !in s.index && m == identity.devAddr && m !in index0 ==> first == identity
    ensures var r := RegisterStep(s, identity);
            m in r.index && m !in index0 ==> r.index[m] in r.stored.items && r.stored.items[r.index[m]] == NewPeer(first)
  {
  }

  /**
   * Registering the reports `identities` took index `macs0` and map `items0`
   * to `macs1` and `items1`: `seen` holds the reported addresses; a known
   * address keeps its handle and a known peer its entry; each address
   * reported for the first time is indexed under a new peer, listed in
   * `joined`, built from its first report, with no groups.
   */
  ghost predicate Registered(identities: seq<PhysicalPeerIdentity>, seen: set<MacAddr>, joined: seq<PeerId>,
                             macs0: map<MacAddr, PeerId>, items0: Peers<AndroidPeerData>,
                             macs1: map<MacAddr, PeerId>, items1: Peers<AndroidPeerData>)
  {
    (forall m :: m in seen <==> FirstReport(identities, m) < |identities|) &&
    (forall m :: m in macs1 <==> m in macs0 || m in seen) &&
    (forall m :: m in macs0 ==> m in macs1 && macs1[m] == macs0[m]) &&
    (forall h :: h in items0 ==> h in items1 && items1[h] == items0[h]) &&
    (forall h :: h in items1 <==> h in items0 || h in joined) &&
    Distinct(joined) &&
    (forall h :: h in joined ==>
       h !in items0 && h in items1 && items1[h].groups == [] && items1[h].identity.physical.devAddr in seen) &&
    (forall m :: m in macs1 && m !in macs0 ==>
       macs1[m] in joined && macs1[m] in items1 && FirstReport(identities, m) < |identities| &&
       items1[macs1[m]] == NewPeer(identities[FirstReport(identities, m)]))
  }

  /** Each lost peer is reported once, with the groups it listed in `before`; `pending` are their handles. */
  ghost predicate LostFrom(lost: seq<(PeerId, seq<GroupId>)>, pending: set<PeerId>, before: Peers<AndroidPeerData>) {
    pending == LostIds(lost) &&
    (forall j, k :: 0 <= j < k < |lost| ==> lost[j].0 != lost[k].0) &&
    (forall j :: 0 <= j < |lost| ==> lost[j].0 in before && lost[j].1 == before[lost[j].0].groups)
  }

  /**
   * The `retain` took index `macs1` and map `items1` to `macs2` and `items2`:
   * the index keeps exactly the seen addresses, under their handles; the
   * peers whose address was not seen are `pending`, reported in `lost`, and
   * have had their groups taken.
   */
  ghost predicate Retained(seen: set<MacAddr>, lost: seq<(PeerId, seq<GroupId>)>, pending: set<PeerId>,
                           macs1: map<MacAddr, PeerId>, items1: Peers<AndroidPeerData>,
                           macs2: map<MacAddr, PeerId>, items2: Peers<AndroidPeerData>)
  {
    macs2.Keys == seen && (forall m :: m in macs2 ==> m in macs1 && macs2[m] == macs1[m]) &&
    (forall h :: h in pending <==> h in items1 && items1[h].identity.physical.devAddr !in seen) &&
    items2 == TakeGroups(items1, pending) &&
    LostFrom(lost, pending, items1)
  }

  /** The handles of the lost peers reported. */
  function LostIds(lost: seq<(PeerId, seq<GroupId>)>): set<PeerId> {
    set j | 0 <= j < |lost| :: lost[j].0
  }

  lemma LostIdsAppend(lost: seq<(PeerId, seq<GroupId>)>, x: (PeerId, seq<GroupId>))
    ensures LostIds(lost + [x]) == LostIds(lost) + {x.0}
  {
    assert forall j :: 0 <= j < |lost| ==> (lost + [x])[j] == lost[j];
    assert (lost + [x])[|lost|] == x;
  }

  /** What the `retain` works on: the peer map, the address index and the peers lost so far. */
  datatype Retention = Retention(stored: HandleMap<Peer>, index: map<MacAddr, PeerId>, lost: seq<(PeerId, seq<GroupId>)>)

  /**
   * The `retain` closure on the entry of address `m`: a seen address stays; an
   * unseen one leaves the index, and when its handle names a stored peer, that
   * peer's groups are taken and reported lost with it.
   */
  function RetainStep(st: Retention, seen: set<MacAddr>, m: MacAddr): (r: Retention)
    requires st.stored.Valid()
    ensures r.stored.Valid() && r.stored.next == st.stored.next
  {
    if m !in st.index || m in seen then st
    else if st.index[m] !in st.stored.items then st.(index := st.index - {m})
    else
      var id := st.index[m];
      var peer := st.stored.items[id];
      Retention(st.stored.Set(id, peer.(groups := [])), st.index - {m}, st.lost + [(id, peer.groups)])
  }

  /** The `retain` once it has visited the addresses of `visited`, in that order. */
  function RetainAll(st: Retention, seen: set<MacAddr>, visited: seq<MacAddr>): (r: Retention)
    requires st.stored.Valid()
    ensures r.stored.Valid() && r.stored.next == st.stored.next
    decreases |visited|
  {
    if visited == [] then st
    else RetainStep(RetainAll(st, seen, visited[..|visited| - 1]), seen, visited[|visited| - 1])
  }

  /** A `retain` starting from an index in step with its map, visiting indexed addresses, none twice. */
  ghost predicate RetainFrom(st: Retention, visited: seq<MacAddr>) {
    Indexed(st.stored, st.index, {}) && st.lost == [] &&
    (forall i :: 0 <= i < |visited| ==> visited[i] in st.index) &&
    (forall i, j :: 0 <= i < j < |visited| ==> visited[i] != visited[j])
  }

  /** An address stays indexed, under its handle, exactly when it was seen or not yet visited. */
  lemma {:induction false} RetainedIndex(st: Retention, seen: set<MacAddr>, visited: seq<MacAddr>, m: MacAddr)
    requires RetainFrom(st, visited)
    ensures var r := RetainAll(st, seen, visited);
            (m in r.index <==> m in st.index && (m in seen || m !in visited)) &&
            (m in r.index ==> r.index[m] == st.index[m])
  {
    if visited != [] {
      var prefix := visited[..|visited| - 1];
      assert RetainFrom(st, prefix);
      RetainedIndex(st, seen, prefix, m);
      assert m in visited <==> m in prefix || m == visited[|visited| - 1];
    }
  }

  /** Taking the groups of one more peer. */
  lemma TakeGroupsMore(peers: Peers<AndroidPeerData>, ps: set<PeerId>, p: PeerId)
    requires p in peers
    ensures TakeGroups(peers, ps)[p := peers[p].(groups := [])] == TakeGroups(peers, ps + {p})
  {
  }

  /** Reporting a peer not yet reported keeps every peer reported at most once. */
  lemma LostOnceAppend(lost: seq<(PeerId, seq<GroupId>)>, x: (PeerId, seq<GroupId>))
    requires forall j, k :: 0 <= j < k < |lost| ==> lost[j].0 != lost[k].0
    requires x.0 !in LostIds(lost)
    ensures forall j, k :: 0 <= j < k < |lost + [x]| ==> (lost + [x])[j].0 != (lost + [x])[k].0
  {
    assert forall j :: 0 <= j < |lost| ==> lost[j].0 in LostIds(lost);
  }

  /** Exactly the peers reported lost have had their groups taken. */
  lemma {:induction false} RetainedTaken(st: Retention, seen: set<MacAddr>, visited: seq<MacAddr>)
    requires st.stored.Valid() && st.lost == []
    ensures var r := RetainAll(st, seen, visited);
            r.stored.items == TakeGroups(st.stored.items, LostIds(r.lost))
  {
    if visited == [] {
      assert TakeGroups(st.stored.items, {}) == st.stored.items;
    } else {
      var prefix, v := visited[..|visited| - 1], visited[|visited| - 1];
      RetainedTaken(st, seen, prefix);
      var before := RetainAll(st, seen, prefix);
      if v in before.index && v !in seen && before.index[v] in before.stored.items {
        var id := before.index[v];
        var peer := before.stored.items[id];
        assert peer.(groups := []) == st.stored.items[id].(groups := []);
        LostIdsAppend(before.lost, (id, peer.groups));
        TakeGroupsMore(st.stored.items, LostIds(before.lost), id);
      }
    }
  }

  /** The peers reported lost are those whose address was visited and not seen. */
  lemma {:induction false} RetainedLost(st: Retention, seen: set<MacAddr>, visited: seq<MacAddr>, h: PeerId)
    requires RetainFrom(st, visited)
    ensures var r := RetainAll(st, seen, visited);
            h in LostIds(r.lost) <==>
              h in st.stored.items && st.stored.items[h].identity.physical.devAddr !in seen &&
              st.stored.items[h].identity.physical.devAddr in visited
  {
    if visited != [] {
      var prefix, v := visited[..|visited| - 1], visited[|visited| - 1];
      assert RetainFrom(st, prefix);
      RetainedLost(st, seen, prefix, h);
      var before, r := RetainAll(st, seen, prefix), RetainAll(st, seen, visited);
      assert visited == prefix + [v];
      if v in seen {
        assert r == before;
      } else {
        RetainedIndex(st, seen, prefix, v);
        RetainedTaken(st, seen, prefix);
        var id := st.index[v];
        assert id in before.stored.items;
        assert r.lost == before.lost + [(id, before.stored.items[id].groups)];
        LostIdsAppend(before.lost, (id, before.stored.items[id].groups));
      }
    }
  }

  /** Each peer is reported lost at most once. */
  lemma {:induction false} RetainedLostOnce(st: Retention, seen: set<MacAddr>, visited: seq<MacAddr>, j: int, k: int)
    requires RetainFrom(st, visited)
    ensures var r := RetainAll(st, seen, visited);
            0 <= j < k < |r.lost| ==> r.lost[j].0 != r.lost[k].0
  {
    if visited != [] {
      var prefix, v := visited[..|visited| - 1], visited[|visited| - 1];
      assert RetainFrom(st, prefix);
      RetainedLostOnce(st, seen, prefix, j, k);
      var before, r := RetainAll(st, seen, prefix), RetainAll(st, seen, visited);
      if v in seen {
        assert r == before;
      } else {
        RetainedIndex(st, seen, prefix, v);
        RetainedTaken(st, seen, prefix);
        var id := st.index[v];
        assert id in before.stored.items;
        assert r.lost == before.lost + [(id, before.stored.items[id].groups)];
        if 0 <= j < k == |before.lost| {
          RetainedLost(st, seen, prefix, id);
          assert before.lost[j].0 in LostIds(before.lost);
        }
      }
    }
  }

  /** Each peer reported lost comes with the groups it listed before the `retain`. */
  lemma {:induction false} RetainedLostGroups(st: Retention, seen: set<MacAddr>, visited: seq<MacAddr>, j: int)
    requires RetainFrom(st, visited)
    ensures var r := RetainAll(st, seen, visited);
            0 <= j < |r.lost| ==>
              r.lost[j].0 in st.stored.items && r.lost[j].1 == st.stored.items[r.lost[j].0].groups
  {
    if visited != [] {
      var prefix, v := visited[..|visited| - 1], visited[|visited| - 1];
      assert RetainFrom(st, prefix);
      RetainedLostGroups(st, seen, prefix, j);
      var before, r := RetainAll(st, seen, prefix), RetainAll(st, seen, visited);
      if v in seen {
        assert r == before;
      } else {
        RetainedIndex(st, seen, prefix, v);
        RetainedTaken(st, seen, prefix);
        var id := st.index[v];
        assert id in before.stored.items;
        assert r.lost == before.lost + [(id, before.stored.items[id].groups)];
        if j == |before.lost| {
          RetainedLost(st, seen, prefix, id);
          assert before.stored.items[id] == st.stored.items[id];
        }
      }
    }
  }

  /**
   * A `retain` that visited every indexed address: the index keeps the seen
   * addresses, and the peers whose address was not seen are reported lost
   * and have had their groups taken.
   */
  lemma RetainedEntries(st: Retention, seen: set<MacAddr>, visited: seq<MacAddr>)
    requires RetainFrom(st, visited) && forall m :: m in visited <==> m in st.index
    ensures var r := RetainAll(st, seen, visited);
            (forall m :: m in r.index <==> m in st.index && m in seen) &&
            (forall m :: m in r.index ==> r.index[m] == st.index[m]) &&
            (forall h :: h in LostIds(r.lost) <==>
               h in st.stored.items && st.stored.items[h].identity.physical.devAddr !in seen) &&
            r.stored.items == TakeGroups(st.stored.items, LostIds(r.lost))
  {
    var r := RetainAll(st, seen, visited);
    RetainedTaken(st, seen, visited);
    forall h
      ensures h in LostIds(r.lost) <==>
                h in st.stored.items && st.stored.items[h].identity.physical.devAddr !in seen
    {
      RetainedLost(st, seen, visited, h);
    }
    forall m
      ensures m in r.index <==> m in st.index && m in seen
      ensures m in r.index ==> r.index[m] == st.index[m]
    {
      RetainedIndex(st, seen, visited, m);
    }
  }

  /** A `retain` reports each lost peer once, with the groups it listed. */
  lemma RetainedList(st: Retention, seen: set<MacAddr>, visited: seq<MacAddr>)
    requires RetainFrom(st, visited)
    ensures var r := RetainAll(st, seen, visited);
            LostFrom(r.lost, LostIds(r.lost), st.stored.items)
  {
    var r := RetainAll(st, seen, visited);
    forall j, k | 0 <= j < k < |r.lost|
      ensures r.lost[j].0 != r.lost[k].0
    {
      RetainedLostOnce(st, seen, visited, j, k);
    }
    forall j | 0 <= j < |r.lost|
      ensures r.lost[j].0 in st.stored.items && r.lost[j].1 == st.stored.items[r.lost[j].0].groups
    {
      RetainedLostGroups(st, seen, visited, j);
    }
  }

  /** After the `retain`, the index holds the seen addresses of the original index, and all else is pending. */
  lemma RetainedIndexed(stored0: HandleMap<Peer>, macs0: map<MacAddr, PeerId>, seen: set<MacAddr>, pending: set<PeerId>,
                        stored: HandleMap<Peer>, index: map<MacAddr, PeerId>)
    requires Indexed(stored0, macs0, {})
    requires stored.Valid() && stored.items == TakeGroups(stored0.items, pending)
    requires forall m :: m in index <==> m in macs0 && m in seen
    requires forall m :: m in index ==> index[m] == macs0[m]
    requires forall h :: h in pending <==> h in stored0.items && stored0.items[h].identity.physical.devAddr !in seen
    ensures Indexed(stored, index, pending)
  {
  }

  /** The loop of the `retain`, visiting every indexed address once, in an order it chooses. */
  method Retain(st: Retention, seen: set<MacAddr>) returns (r: Retention, ghost visited: seq<MacAddr>)
    requires st.stored.Valid()
    ensures r == RetainAll(st, seen, visited)
    ensures forall m :: m in visited <==> m in st.index
    ensures forall i, j :: 0 <= i < j < |visited| ==> visited[i] != visited[j]
  {
    var stored, index, lost := st.stored, st.index, st.lost;
    var remaining := st.index.Keys;
    visited := [];
    while remaining != {}
      invariant Retention(stored, index, lost) == RetainAll(st, seen, visited)
      invariant remaining <= index.Keys
      invariant forall m :: m in visited <==> m in st.index && m !in remaining
      invariant forall i, j :: 0 <= i < j < |visited| ==> visited[i] != visited[j]
      decreases remaining
    {
      var m :| m in remaining;
      assert (visited + [m])[..|visited|] == visited;
      if m !in seen {
        var id := index[m];
        if id in stored.items {
          var peer := stored.items[id];
          stored := stored.Set(id, peer.(groups := []));
          lost := lost + [(id, peer.groups)];
        }
        index := index - {m};
      }
      visited := visited + [m];
      remaining := remaining - {m};
    }
    r := Retention(stored, index, lost);
  }

  /** The `retain` of UpdateDevices on a map and its index: see PeerStore.RetainSeen. */
  method RetainUnseen(stored0: HandleMap<Peer>, macs0: map<MacAddr, PeerId>, seen: set<MacAddr>)
    returns (stored: HandleMap<Peer>, index: map<MacAddr, PeerId>, lost: seq<(PeerId, seq<GroupId>)>, ghost pending: set<PeerId>)
    requires Indexed(stored0, macs0, {}) && seen <= macs0.Keys
    ensures Indexed(stored, index, pending) && stored.next == stored0.next
    ensures Retained(seen, lost, pending, macs0, stored0.items, index, stored.items)
  {
    var st := Retention(stored0, macs0, []);
    var r;
    ghost var visited;
    r, visited := Retain(st, seen);
    RetainedEntries(st, seen, visited);
    RetainedList(st, seen, visited);
    stored, index, lost, pending := r.stored, r.index, r.lost, LostIds(r.lost);
    RetainedIndexed(stored0, macs0, seen, pending, stored, index);
  }

  /** The groups once each lost peer, in order, has left the groups it was reported with. */
  function LeaveLost(groups: Groups<AndroidGroupData>, lost: seq<(PeerId, seq<GroupId>)>): (r: Groups<AndroidGroupData>)
    ensures r.Keys == groups.Keys
  {
    if lost == [] then groups
    else LeaveGroups(LeaveLost(groups, lost[..|lost| - 1]), lost[|lost| - 1].0, lost[|lost| - 1].1)
  }

  /**
   * When each lost peer is reported once, with the groups it listed, leaving
   * those groups peer by peer takes every lost peer out of every group, and
   * the peers that remain stay linked with the groups.
   */
  lemma {:induction false} LeftLost(before: Peers<AndroidPeerData>, groups: Groups<AndroidGroupData>,
                                    lost: seq<(PeerId, seq<GroupId>)>)
    requires Linked(before, groups)
    requires forall j, k :: 0 <= j < k < |lost| ==> lost[j].0 != lost[k].0
    requires forall j :: 0 <= j < |lost| ==> lost[j].0 in before && lost[j].1 == before[lost[j].0].groups
    ensures LeaveLost(groups, lost) == LeaveAll(groups, LostIds(lost))
    ensures Linked(before - LostIds(lost), LeaveLost(groups, lost))
  {
    if lost == [] {
      assert forall g :: g in groups ==> groups[g].(peers := groups[g].peers - {}) == groups[g];
      assert LostIds(lost) == {} && before - {} == before;
    } else {
      var prefix, p, gs := lost[..|lost| - 1], lost[|lost| - 1].0, lost[|lost| - 1].1;
      assert forall j :: 0 <= j < |prefix| ==> prefix[j] == lost[j];
      LeftLost(before, groups, prefix);
      var rest, current := before - LostIds(prefix), LeaveLost(groups, prefix);
      assert p !in LostIds(prefix);
      LeaveListedIsLeaveAll(rest, current, p);
      PeerLostKeepsLinked(rest, current, p);
      LeaveAllTwice(groups, LostIds(prefix), {p});
      LostIdsAppend(prefix, (p, gs));
      assert lost == prefix + [(p, gs)];
      assert rest - {p} == before - LostIds(lost);
    }
  }

  /** One more lost peer: it leaves the peer map and the groups it listed. */
  lemma DropLostStep(items: Peers<AndroidPeerData>, groups: Groups<AndroidGroupData>,
                     lost: seq<(PeerId, seq<GroupId>)>, k: nat)
    requires k < |lost|
    ensures items - LostIds(lost[..k + 1]) == (items - LostIds(lost[..k])) - {lost[k].0}
    ensures LeaveLost(groups, lost[..k + 1]) == LeaveGroups(LeaveLost(groups, lost[..k]), lost[k].0, lost[k].1)
  {
    assert lost[..k + 1] == lost[..k] + [lost[k]];
    assert lost[..k + 1][..k] == lost[..k];
    LostIdsAppend(lost[..k], lost[k]);
  }

  /**
   * The loop of UpdateDevices over the lost peers, in order: a peer whose
   * taken group list is not empty leaves each of those groups that still
   * exists, and then the peer leaves the map.
   */
  method DropLostPeers(stored0: HandleMap<Peer>, groups0: HandleMap<Group>, lost: seq<(PeerId, seq<GroupId>)>)
    returns (stored: HandleMap<Peer>, groups: HandleMap<Group>)
    requires stored0.Valid() && groups0.Valid()
    ensures stored.Valid() && stored.items == stored0.items - LostIds(lost)
    ensures groups.Valid() && groups.items == LeaveLost(groups0.items, lost) && groups.next == groups0.next
  {
    stored, groups := stored0, groups0;
    var k := 0;
    while k < |lost|
      invariant 0 <= k <= |lost|
      invariant stored.Valid() && stored.items == stored0.items - LostIds(lost[..k])
      invariant groups.Valid() && groups.items == LeaveLost(groups0.items, lost[..k]) && groups.next == groups0.next
    {
      var p, gs := lost[k].0, lost[k].1;
      DropLostStep(stored0.items, groups0.items, lost, k);
      if gs != [] {
        groups := LeaveEach(groups, p, gs);
      }
      stored := stored.Remove(p).1;
      k := k + 1;
    }
    assert lost[..k] == lost;
  }

  /** Registration keeps the peers linked with the groups, and every listed group issued. */
  lemma RegisteredKeepsLinked(identities: seq<PhysicalPeerIdentity>, seen: set<MacAddr>, joined: seq<PeerId>,
                              macs0: map<MacAddr, PeerId>, items0: Peers<AndroidPeerData>,
                              macs1: map<MacAddr, PeerId>, items1: Peers<AndroidPeerData>,
                              groups: Groups<AndroidGroupData>, next: GroupId)
    requires Registered(identities, seen, joined, macs0, items0, macs1, items1)
    requires Linked(items0, groups) && ListsIssued(items0, next)
    ensures Linked(items1, groups) && ListsIssued(items1, next)
  {
    FreshPeersKeepLinked(items0, items1, groups);
  }

  /**
   * UpdateDevices on the address index: `macs0` before, `macs1` after the
   * reports were registered, `macs2` after the `retain`; `items2` is the map
   * once the lost peers have left.
   */
  lemma UpdatedIndex(identities: seq<PhysicalPeerIdentity>, seen: set<MacAddr>, joined: seq<PeerId>,
                     lost: seq<(PeerId, seq<GroupId>)>, pending: set<PeerId>,
                     macs0: map<MacAddr, PeerId>, items0: Peers<AndroidPeerData>,
                     macs1: map<MacAddr, PeerId>, items1: Peers<AndroidPeerData>,
                     macs2: map<MacAddr, PeerId>, taken: Peers<AndroidPeerData>, items2: Peers<AndroidPeerData>)
    requires Registered(identities, seen, joined, macs0, items0, macs1, items1)
    requires Retained(seen, lost, pending, macs1, items1, macs2, taken)
    requires items2 == items1 - pending
    ensures forall m :: m in macs2 <==> FirstReport(identities, m) < |identities|
    ensures forall m :: m in macs2 && m in macs0 ==> macs2[m] == macs0[m]
    ensures forall m :: m in macs2 && m !in macs0 ==>
              macs2[m] in joined && macs2[m] in items2 &&
              items2[macs2[m]] == NewPeer(identities[FirstReport(identities, m)])
  {
  }

  /**
   * UpdateDevices on the peer map, for handle `h`: `items0` before, `items1`
   * after the reports were registered, `items2` after the lost peers left.
   */
  lemma UpdatedPeer(identities: seq<PhysicalPeerIdentity>, seen: set<MacAddr>, joined: seq<PeerId>,
                    lost: seq<(PeerId, seq<GroupId>)>, pending: set<PeerId>,
                    macs0: map<MacAddr, PeerId>, items0: Peers<AndroidPeerData>,
                    macs1: map<MacAddr, PeerId>, items1: Peers<AndroidPeerData>,
                    macs2: map<MacAddr, PeerId>, taken: Peers<AndroidPeerData>, items2: Peers<AndroidPeerData>,
                    h: PeerId)
    requires Registered(identities, seen, joined, macs0, items0, macs1, items1)
    requires Retained(seen, lost, pending, macs1, items1, macs2, taken)
    requires items2 == items1 - pending
    ensures h in joined ==> h !in items0 && h in items2
    ensures h in items2 <==>
              h in joined ||
              (h in items0 && FirstReport(identities, items0[h].identity.physical.devAddr) < |identities|)
    ensures h in items0 && h in items2 ==> items2[h] == items0[h]
    ensures h in LostIds(lost) <==>
              h in items0 && FirstReport(identities, items0[h].identity.physical.devAddr) == |identities|
  {
    assert pending == LostIds(lost);
    if h in items0 {
      assert h in items1 && items1[h] == items0[h];
      var dev := items0[h].identity.physical.devAddr;
      assert dev in seen <==> FirstReport(identities, dev) < |identities|;
    } else if h in joined {
      assert h in items1 && items1[h].identity.physical.devAddr in seen;
    } else {
      assert h !in items1;
    }
  }

  /** UpdateDevices reports each lost peer with the groups it listed before the notification. */
  lemma UpdatedLost(identities: seq<PhysicalPeerIdentity>, seen: set<MacAddr>, joined: seq<PeerId>,
                    lost: seq<(PeerId, seq<GroupId>)>, pending: set<PeerId>,
                    macs0: map<MacAddr, PeerId>, items0: Peers<AndroidPeerData>,
                    macs1: map<MacAddr, PeerId>, items1: Peers<AndroidPeerData>,
                    macs2: map<MacAddr, PeerId>, taken: Peers<AndroidPeerData>,
                    j: int)
    requires Registered(identities, seen, joined, macs0, items0, macs1, items1)
    requires Retained(seen, lost, pending, macs1, items1, macs2, taken)
    requires 0 <= j < |lost|
    ensures lost[j].0 in items0 && lost[j].1 == items0[lost[j].0].groups
  {
    assert lost[j].0 in pending;
  }

  class PeerStore {
    var entries: HandleMap<Peer>
    var macToId: map<MacAddr, PeerId>

    /**
     * `mac_to_id` indexes the stored peers by device address, except the peers
     * in `pending`, whose addresses have already left the index while the peers
     * are still in the map.
     */
    ghost predicate IndexedExcept(pending: set<PeerId>)
      reads this
    {
      Indexed(entries, macToId, pending)
    }

    /** get_mut followed by an assignment through the reference, keeping the device address. */
    method Replace(h: PeerId, peer: Peer)
      requires Valid() && h in entries.items
      requires peer.identity.physical.devAddr == entries.items[h].identity.physical.devAddr
      modifies this
      ensures Valid() && entries.items == old(entries.items)[h := peer] && entries.order == old(entries.order)
      ensures entries.next == old(entries.next) && macToId == old(macToId)
    {
      entries := entries.Set(h, peer);
    }

    /** The lost peers, pending since the `retain`, leave the map. */
    method RemoveLost(stored: HandleMap<Peer>, ghost pending: set<PeerId>)
      requires IndexedExcept(pending)
      requires stored.Valid() && stored.items == entries.items - pending
      modifies this
      ensures Valid() && entries == stored && macToId == old(macToId)
    {
      entries := stored;
    }

    /** Each stored peer is indexed under its own device address, and only those. */
    ghost predicate Valid()
      reads this
    {
      IndexedExcept({})
    }

    /** Default: both empty. */
    constructor ()
      ensures Valid() && entries.items == map[] && macToId == map[]
    {
      entries := EmptyHandleMap();
      macToId := map[];
    }

    /** clear: both the map and the index are empty. */
    method Clear()
      requires Valid()
      modifies this
      ensures Valid() && entries.items == map[] && macToId == map[]
    {
      entries := entries.Clear();
      macToId := map[];
    }

    /**
     * The first loop of UpdateDevices: every reported address is seen; an
     * address already indexed keeps its peer; the first report of an unknown
     * address stores a new peer, indexes it and reports it joined. Later
     * reports of the same address find it indexed.
     */
    method Register(identities: seq<PhysicalPeerIdentity>) returns (joined: seq<PeerId>, seen: set<MacAddr>)
      requires Valid()
      modifies this
      ensures Valid()
      ensures Registered(identities, seen, joined, old(macToId), old(entries.items), macToId, entries.items)
    {
      ghost var s0 := Registration(entries, macToId, [], {});
      var stored, index: map<MacAddr, PeerId> := entries, macToId;
      joined, seen := [], {};
      var k := 0;
      while k < |identities|
        invariant 0 <= k <= |identities|
        invariant Registration(stored, index, joined, seen) == RegisterPrefix(s0, identities, k)
      {
        var identity := identities[k];
        var m := identity.devAddr;
        seen := seen + {m};
        if m !in index {
          var inserted := stored.Insert(NewPeer(identity));
          var h: PeerId := inserted.0;
          stored, index, joined := inserted.1, index[m := h], joined + [h];
        }
        k := k + 1;
      }
      forall m | true
        ensures m in seen <==> FirstReport(identities, m) < |identities|
      {
        RegisteredSeen(s0, identities, |identities|, m);
      }
      RegisteredIndexed(s0, identities, |identities|);
      RegisteredPeers(s0, identities, |identities|);
      forall h | h in joined
        ensures stored.items[h].groups == [] && stored.items[h].identity.physical.devAddr in seen
      {
        RegisteredJoinedSeen(s0, identities, |identities|, h);
      }
      forall m | true
        ensures m in index <==> m in s0.index || m in seen
        ensures m in s0.index ==> index[m] == s0.index[m]
        ensures m in index && m !in s0.index ==>
                  index[m] in joined && index[m] in stored.items && FirstReport(identities, m) < |identities| &&
                  stored.items[index[m]] == NewPeer(identities[FirstReport(identities, m)])
      {
        RegisteredIndex(s0, identities, |identities|, m);
        RegisteredJoined(s0, identities, |identities|, m);
        RegisteredNew(s0, identities, |identities|, m);
      }
      entries, macToId := stored, index;
    }

    /**
     * The `retain` of UpdateDevices, skipped when as many addresses were seen
     * as are indexed: every address not seen leaves the index, and its peer's
     * groups are taken and reported with it, in the order of `lost`. With the
     * index in step with the map, the source's out-of-sync branch is never
     * taken.
     */
    method RetainSeen(seen: set<MacAddr>) returns (lost: seq<(PeerId, seq<GroupId>)>, ghost pending: set<PeerId>)
      requires Valid() && seen <= macToId.Keys
      modifies this
      ensures IndexedExcept(pending) && entries.next == old(entries.next)
      ensures Retained(seen, lost, pending, old(macToId), old(entries.items), macToId, entries.items)
    {
      if |seen| == |macToId| {
        SubsetOfSameSize(seen, macToId.Keys);
        assert TakeGroups(entries.items, {}) == entries.items;
        return [], {};
      }
      entries, macToId, lost, pending := RetainUnseen(entries, macToId, seen);
    }
  }

  class Session {
    const peers: PeerStore
    var groups: HandleMap<Group>

    ghost predicate Valid()
      reads this, peers
    {
      peers.Valid() && groups.Valid() &&
      Linked(peers.entries.items, groups.items) &&
      ListsIssued(peers.entries.items, groups.next)
    }

    /** A session starts with no peers and no groups. */
    constructor ()
      ensures Valid() && fresh(peers)
      ensures peers.entries.items == map[] && groups.items == map[]
    {
      peers := new PeerStore();
      groups := EmptyHandleMap();
    }

    /**
     * The lost peers leave their groups and the map; `before` is the map as it
     * was before their groups were taken.
     */
    method DropLost(lost: seq<(PeerId, seq<GroupId>)>, ghost pending: set<PeerId>, ghost before: Peers<AndroidPeerData>)
      requires peers.IndexedExcept(pending) && groups.Valid()
      requires peers.entries.items == TakeGroups(before, pending)
      requires Linked(before, groups.items) && ListsIssued(before, groups.next)
      requires LostFrom(lost, pending, before)
      modifies this, peers
      ensures Valid()
      ensures peers.entries.items == before - pending && peers.macToId == old(peers.macToId)
      ensures groups.items == LeaveAll(old(groups.items), pending)
    {
      var stored, r := DropLostPeers(peers.entries, groups, lost);
      LeftLost(before, groups.items, lost);
      assert TakeGroups(before, pending) - pending == before - pending;
      peers.RemoveLost(stored, pending);
      groups := r;
    }

    /**
     * The UpdateDevices notification: afterwards the index holds exactly the
     * reported addresses; a known address keeps its peer; each address met for
     * the first time gets a new peer, reported in `joined`; each peer whose
     * address was not reported leaves all its groups and the map, and is
     * reported in `lost` with the groups it was in. `changed` says whether any
     * peer joined or was lost.
     */
    method UpdateDevices(identities: seq<PhysicalPeerIdentity>)
      returns (joined: seq<PeerId>, lost: seq<(PeerId, seq<GroupId>)>, changed: bool)
      requires Valid()
      modifies this, peers
      ensures Valid()
      ensures forall m :: m in peers.macToId <==> FirstReport(identities, m) < |identities|
      ensures forall m :: m in peers.macToId && m in old(peers.macToId) ==> peers.macToId[m] == old(peers.macToId)[m]
      ensures forall m :: m in peers.macToId && m !in old(peers.macToId) ==>
                peers.macToId[m] in joined &&
                peers.entries.items[peers.macToId[m]] == NewPeer(identities[FirstReport(identities, m)])
      ensures Distinct(joined) && forall h :: h in joined ==> h !in old(peers.entries.items) && h in peers.entries.items
      ensures forall h :: h in peers.entries.items <==>
                h in joined ||
                (h in old(peers.entries.items) &&
                 FirstReport(identities, old(peers.entries.items)[h].identity.physical.devAddr) < |identities|)
      ensures forall h :: h in old(peers.entries.items) && h in peers.entries.items ==>
                peers.entries.items[h] == old(peers.entries.items)[h]
      ensures forall j, k :: 0 <= j < k < |lost| ==> lost[j].0 != lost[k].0
      ensures forall h :: h in LostIds(lost) <==>
                h in old(peers.entries.items) &&
                FirstReport(identities, old(peers.entries.items)[h].identity.physical.devAddr) == |identities|
      ensures forall j :: 0 <= j < |lost| ==>
                lost[j].0 in old(peers.entries.items) && lost[j].1 == old(peers.entries.items)[lost[j].0].groups
      ensures groups.items == LeaveAll(old(groups.items), LostIds(lost))
      ensures changed <==> joined != [] || lost != []
    {
      ghost var items0, macs0 := peers.entries.items, peers.macToId;
      var seen;
      joined, seen := peers.Register(identities);
      ghost var items1, macs1 := peers.entries.items, peers.macToId;
      RegisteredKeepsLinked(identities, seen, joined, macs0, items0, macs1, items1, groups.items, groups.next);
      ghost var pending;
      lost, pending := peers.RetainSeen(seen);
      ghost var macs2, taken := peers.macToId, peers.entries.items;
      changed := lost != [] || joined != [];
      DropLost(lost, pending, items1);
      UpdatedIndex(identities, seen, joined, lost, pending, macs0, items0, macs1, items1, macs2, taken, peers.entries.items);
      forall h
        ensures h in joined ==> h !in items0 && h in peers.entries.items
        ensures h in peers.entries.items <==>
                  h in joined ||
                  (h in items0 && FirstReport(identities, items0[h].identity.physical.devAddr) < |identities|)
        ensures h in items0 && h in peers.entries.items ==> peers.entries.items[h] == items0[h]
        ensures h in LostIds(lost) <==>
                  h in items0 && FirstReport(identities, items0[h].identity.physical.devAddr) == |identities|
      {
        UpdatedPeer(identities, seen, joined, lost, pending, macs0, items0, macs1, items1, macs2, taken, peers.entries.items, h);
      }
      forall j | 0 <= j < |lost|
        ensures lost[j].0 in items0 && lost[j].1 == items0[lost[j].0].groups
      {
        UpdatedLost(identities, seen, joined, lost, pending, macs0, items0, macs1, items1, macs2, taken, j);
      }
    }

    /**
     * The GroupStarted notification: a group with the reported interface,
     * role and owner address, the interface's scope id (`if_nametoindex`,
     * here a parameter) and no peers gets a fresh handle.
     */
    method GroupStarted(ifaceName: string, isGo: bool, goIpAddress: IpAddr, scopeId: u32) returns (g: GroupId)
      requires Valid()
      modifies this
      ensures Valid() && peers.entries == old(peers.entries) && peers.macToId == old(peers.macToId)
      ensures g !in old(groups.items)
      ensures groups.items == old(groups.items)[g := GroupInfo(goIpAddress, ifaceName, scopeId, isGo, map[], AndroidGroupData)]
    {
      var group := GroupInfo(goIpAddress, ifaceName, scopeId, isGo, map[], AndroidGroupData);
      var inserted := groups.Insert(group);
      FreshGroupKeepsLinked(peers.entries.items, groups.items, inserted.0, group);
      g := inserted.0;
      groups := inserted.1;
    }

    /**
     * The Associate control message received on group `g` from `address`: the
     * first peer in iteration order whose physical identity matches is
     * considered; if it is admitted it joins the group and takes the logical
     * identity, and the group, when it still exists, records its address and
     * ports. `joined` is the admitted peer; `notified` says whether the
     * listener hears of it, which needs the group to exist. The group's handle
     * was handed out by GroupStarted.
     */
    method Associate(g: GroupId, physicalId: PeerOwnIdentifier, logicalId: LogicalPeerIdentity,
                     ports: P2pPorts, address: IpAddr) returns (joined: Option<PeerId>, notified: bool)
      requires Valid() && g < groups.next
      modifies this, peers
      ensures Valid() && peers.macToId == old(peers.macToId)
      ensures var order := old(peers.entries.order);
              var i := FirstMatch(old(peers.entries.items), order, physicalId);
              joined.Some? <==> i < |order| && Admits(old(peers.entries.items)[order[i]], g, logicalId)
      ensures joined.Some? ==> joined.value == old(peers.entries.order)[FirstMatch(old(peers.entries.items), old(peers.entries.order), physicalId)]
      ensures joined.None? ==> !notified && peers.entries == old(peers.entries) && groups == old(groups)
      ensures joined.Some? ==>
                notified == (g in old(groups.items)) &&
                peers.entries.items == old(peers.entries.items)[joined.value := Join(old(peers.entries.items)[joined.value], g, logicalId)] &&
                groups.items == Record(old(groups.items), g, joined.value, PeerAddress(address, ports))
    {
      var order := peers.entries.order;
      var items := peers.entries.items;
      var i := FindMatch(items, order, physicalId);
      if i == |order| {
        return None, false;
      }
      var p := order[i];
      var peer := items[p];
      if peer.identity.logical.Some? && peer.identity.logical.value != logicalId {
        return None, false;
      }
      if g in peer.groups {
        return None, false;
      }
      var groups0 := groups.items;
      peers.Replace(p, Join(peer, g, logicalId));
      joined := Some(p);
      AssociateKeepsLinked(items, groups0, p, g, logicalId, PeerAddress(address, ports));
      JoinKeepsIssued(items, p, g, logicalId, groups.next);
      if g !in groups.items {
        return joined, false;
      }
      var group := groups.items[g];
      groups := groups.Set(g, group.(peers := group.peers[p := PeerGroupInfo(PeerAddress(address, ports))]));
      notified := true;
    }

    /** message_peer's destination lookup, on the maps' current contents. */
    function MessagePeerDestination(id: PeerId): (r: Result<SocketAddr, RouteError>)
      requires Valid()
      reads this, peers
      ensures r != Err(NoAddress)
      ensures r.Ok? ==> id in peers.entries.items && peers.entries.items[id].groups != []
    {
      RouteHasAddress(peers.entries.items, groups.items, id);
      Destination(peers.entries.items, groups.items, id)
    }

    /** peer_id_from_address: the peer of group `g` that the source address belongs to. */
    method PeerIdFromSource(g: GroupId, source: SocketAddr) returns (r: Option<PeerId>)
      ensures r.Some? ==> g in groups.items && r.value in groups.items[g].peers &&
                          groups.items[g].peers[r.value].address.address == source.Ip()
      ensures r.None? && g in groups.items ==>
                forall p :: p in groups.items[g].peers ==> groups.items[g].peers[p].address.address != source.Ip()
    {
      r := PeerIdFromAddress(groups.items, g, source.Ip());
    }

    /** stop: the groups and then the peers are cleared. */
    method Stop()
      requires Valid()
      modifies this, peers
      ensures Valid() && peers.entries.items == map[] && groups.items == map[]
    {
      groups := groups.Clear();
      peers.Clear();
    }
  }
}
