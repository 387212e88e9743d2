/**
 The control plane's node, group and service indexes. Groups and services list node
 identifiers; a node names at most one of each. Cleanup changes all three while it
 ranges over a map.
 */
module ControlPlane {
  import opened Prelude

  type Labels = map<string, string>

  datatype NodeInfo = NodeInfo(
    labels: Labels, kind: string, status: string, lastActive: int, registeredAt: int, groupID: string,
        serviceID: string)

  datatype RegisterRequest = RegisterRequest(nodeID: NodeId, labels: Labels, kind: string, token: string)

  /** The state of the indexes as a value. */
  datatype Index = Index(
    nodes: map<NodeId, NodeInfo>,
    groups: map<string, seq<NodeId>>,
    services: map<string, ServiceList>)

  datatype ServiceList = ServiceList(nodeIDs: seq<NodeId>, priorities: map<NodeId, int>)

  // ----- consistency -----

  ghost predicate GroupConsistent(x: Index, gid: string)
    requires gid in x.groups
  {
    && Distinct(x.groups[gid])
    && forall id :: id in x.groups[gid] <==> id in x.nodes && x.nodes[id].groupID == gid
  }

  ghost predicate ServiceConsistent(x: Index, sid: string)
    requires sid in x.services
  {
    && Distinct(x.services[sid].nodeIDs)
    && (forall id :: id in x.services[sid].nodeIDs <==> id in x.nodes && x.nodes[id].serviceID == sid)
    && forall id :: id in x.services[sid].priorities <==> id in x.services[sid].nodeIDs
  }

  /** Each list has no duplicates and holds exactly the nodes naming it; priorities cover exactly the list. */
  ghost predicate Consistent(x: Index) {
    && "" !in x.groups && "" !in x.services
    && (forall gid | gid in x.groups :: GroupConsistent(x, gid))
    && (forall sid | sid in x.services :: ServiceConsistent(x, sid))
  }

  // ----- what the operations do -----

  /** The list without the first occurrence of `id`, as the slice removal does it. */
  function Without(ids: seq<NodeId>, id: NodeId): seq<NodeId> {
    if ids == [] then []
    else if ids[0] == id then ids[1..]
    else [ids[0]] + Without(ids[1..], id)
  }

  /** The elements of `ids` in `keep`, in order. */
  function Kept(ids: seq<NodeId>, keep: set<NodeId>): seq<NodeId> {
    if ids == [] then []
    else (if ids[0] in keep then [ids[0]] else []) + Kept(ids[1..], keep)
  }

  function CutFromService(list: ServiceList, id: NodeId): ServiceList {
    ServiceList(Without(list.nodeIDs, id), list.priorities - {id})
  }

  function KeptService(list: ServiceList, keep: set<NodeId>): ServiceList {
    ServiceList(Kept(list.nodeIDs, keep), map id | id in list.priorities && id in keep :: list.priorities[id])
  }

  function GroupsWithout(groups: map<string, seq<NodeId>>, gid: string, id: NodeId): map<string, seq<NodeId>> {
    if gid in groups then groups[gid := Without(groups[gid], id)] else groups
  }

  function ServicesWithout(services: map<string, ServiceList>, sid: string, id: NodeId): map<string, ServiceList> {
    if sid in services && id in services[sid].nodeIDs then services[sid := CutFromService(services[sid], id)]
        else services
  }

  /** Deletes a node and takes it off the group and the service it names. */
  function Removed(x: Index, id: NodeId): Index
    requires id in x.nodes
  {
    var node := x.nodes[id];
    Index(
      x.nodes - {id},
      if node.groupID != "" then GroupsWithout(x.groups, node.groupID, id) else x.groups,
      if node.serviceID != "" then ServicesWithout(x.services, node.serviceID, id) else x.services)
  }

  /** Only the nodes in `keep` remain, in the index and, order kept, in every list. */
  function Restricted(x: Index, keep: set<NodeId>): Index {
    Index(
      map id | id in x.nodes && id in keep :: x.nodes[id],
      map gid | gid in x.groups :: Kept(x.groups[gid], keep),
      map sid | sid in x.services :: KeptService(x.services[sid], keep))
  }

  function Unexpired(x: Index, now: int, expiry: int): set<NodeId> {
    set id | id in x.nodes && now - x.nodes[id].lastActive <= expiry
  }

  /** Registration overwrites the node's record, unassigned. */
  function Registered(x: Index, id: NodeId, labels: Labels, kind: string, now: int): Index {
    x.(nodes := x.nodes[id := NodeInfo(labels, kind, "active", now, now, "", "")])
  }

  // ----- lists -----

  lemma {:induction false} WithoutAbsent(ids: seq<NodeId>, id: NodeId)
    requires id !in ids
    ensures Without(ids, id) == ids
  {
    if ids == [] {
    } else {
      WithoutAbsent(ids[1..], id);
    }
  }

  lemma {:induction false} KeptAll(ids: seq<NodeId>, keep: set<NodeId>)
    requires forall id | id in ids :: id in keep
    ensures Kept(ids, keep) == ids
  {
    if ids == [] {
    } else {
      KeptAll(ids[1..], keep);
    }
  }

  lemma {:induction false} WithoutIsKept(ids: seq<NodeId>, id: NodeId, keep: set<NodeId>)
    requires Distinct(ids)
    requires forall other | other in ids :: other in keep <==> other != id
    ensures Without(ids, id) == Kept(ids, keep)
  {
    if ids == [] {
    } else if ids[0] == id {
      assert forall k | 1 <= k < |ids| :: ids[k] != ids[0];
      KeptAll(ids[1..], keep);
    } else {
      WithoutIsKept(ids[1..], id, keep);
    }
  }

  lemma {:induction false} KeptTwice(ids: seq<NodeId>, keep: set<NodeId>, more: set<NodeId>)
    ensures Kept(Kept(ids, keep), more) == Kept(ids, keep * more)
  {
    if ids == [] {
    } else {
      KeptTwice(ids[1..], keep, more);
      var rest := Kept(ids[1..], keep);
      assert ([ids[0]] + rest)[1..] == rest && [] + rest == rest;
    }
  }

  lemma {:induction false} KeptMembers(ids: seq<NodeId>, keep: set<NodeId>)
    ensures forall id :: id in Kept(ids, keep) <==> id in ids && id in keep
    ensures Distinct(ids) ==> Distinct(Kept(ids, keep))
  {
    if ids == [] {
    } else {
      KeptMembers(ids[1..], keep);
      assert ids == [ids[0]] + ids[1..];
      assert Distinct(ids) ==> ids[0] !in ids[1..];
    }
  }

  // ----- indexes -----

  lemma KeptServiceTwice(list: ServiceList, keep: set<NodeId>, more: set<NodeId>)
    ensures KeptService(KeptService(list, keep), more) == KeptService(list, keep * more)
  {
    KeptTwice(list.nodeIDs, keep, more);
    assert KeptService(KeptService(list, keep), more).priorities == KeptService(list, keep * more).priorities;
  }

  lemma RestrictedTwice(x: Index, keep: set<NodeId>, more: set<NodeId>)
    ensures Restricted(Restricted(x, keep), more) == Restricted(x, keep * more)
  {
    var y, z := Restricted(Restricted(x, keep), more), Restricted(x, keep * more);
    assert y.nodes == z.nodes;
    forall gid | gid in x.groups ensures y.groups[gid] == z.groups[gid] {
      KeptTwice(x.groups[gid], keep, more);
    }
    forall sid | sid in x.services ensures y.services[sid] == z.services[sid] {
      KeptServiceTwice(x.services[sid], keep, more);
    }
  }

  lemma RestrictedConsistent(x: Index, keep: set<NodeId>)
    requires Consistent(x)
    ensures Consistent(Restricted(x, keep))
  {
    var y := Restricted(x, keep);
    forall gid | gid in y.groups ensures GroupConsistent(y, gid) {
      assert GroupConsistent(x, gid);
      KeptMembers(x.groups[gid], keep);
    }
    forall sid | sid in y.services ensures ServiceConsistent(y, sid) {
      assert ServiceConsistent(x, sid);
      KeptMembers(x.services[sid].nodeIDs, keep);
    }
  }

  lemma KeptServiceAll(list: ServiceList, keep: set<NodeId>)
    requires forall id :: id in list.priorities <==> id in list.nodeIDs
    requires forall id | id in list.nodeIDs :: id in keep
    ensures KeptService(list, keep) == list
  {
    KeptAll(list.nodeIDs, keep);
    assert KeptService(list, keep).priorities == list.priorities;
  }

  lemma RestrictedToAll(x: Index)
    requires Consistent(x)
    ensures Restricted(x, x.nodes.Keys) == x
  {
    var y := Restricted(x, x.nodes.Keys);
    assert y.nodes == x.nodes;
    forall gid | gid in x.groups ensures y.groups[gid] == x.groups[gid] {
      assert GroupConsistent(x, gid);
      KeptAll(x.groups[gid], x.nodes.Keys);
    }
    forall sid | sid in x.services ensures y.services[sid] == x.services[sid] {
      assert ServiceConsistent(x, sid);
      KeptServiceAll(x.services[sid], x.nodes.Keys);
    }
  }

  lemma RemovedGroup(x: Index, id: NodeId, gid: string)
    requires Consistent(x) && id in x.nodes && gid in x.groups
    ensures Removed(x, id).groups[gid] == Kept(x.groups[gid], x.nodes.Keys - {id})
  {
    assert GroupConsistent(x, gid);
    WithoutIsKept(x.groups[gid], id, x.nodes.Keys - {id});
    if gid != x.nodes[id].groupID {
      WithoutAbsent(x.groups[gid], id);
    }
  }

  lemma RemovedService(x: Index, id: NodeId, sid: string)
    requires Consistent(x) && id in x.nodes && sid in x.services
    ensures Removed(x, id).services[sid] == KeptService(x.services[sid], x.nodes.Keys - {id})
  {
    assert ServiceConsistent(x, sid);
    var list, keep := x.services[sid], x.nodes.Keys - {id};
    if sid == x.nodes[id].serviceID {
      WithoutIsKept(list.nodeIDs, id, keep);
      assert list.priorities - {id} == KeptService(list, keep).priorities;
    } else {
      KeptServiceAll(list, keep);
    }
  }

  lemma RemovedGroups(x: Index, id: NodeId)
    requires Consistent(x) && id in x.nodes
    ensures Removed(x, id).groups == Restricted(x, x.nodes.Keys - {id}).groups
  {
    forall gid | gid in x.groups ensures Removed(x, id).groups[gid] == Kept(x.groups[gid], x.nodes.Keys - {id}) {
      RemovedGroup(x, id, gid);
    }
  }

  lemma RemovedServices(x: Index, id: NodeId)
    requires Consistent(x) && id in x.nodes
    ensures Removed(x, id).services == Restricted(x, x.nodes.Keys - {id}).services
  {
    forall sid | sid in x.services ensures Removed(x, id).services[sid]
        == KeptService(x.services[sid], x.nodes.Keys - {id}) {
      RemovedService(x, id, sid);
    }
  }

  /** In a consistent index, taking a node off the lists it names takes it off every list. */
  lemma RemovedIsRestricted(x: Index, id: NodeId)
    requires Consistent(x) && id in x.nodes
    ensures Removed(x, id) == Restricted(x, x.nodes.Keys - {id})
    ensures Consistent(Removed(x, id))
  {
    RemovedGroups(x, id);
    RemovedServices(x, id);
    RestrictedConsistent(x, x.nodes.Keys - {id});
    assert Removed(x, id).nodes == Restricted(x, x.nodes.Keys - {id}).nodes;
  }

  /** One expired node of an index already filtered down to `keep`. */
  lemma RemovedFromRestricted(x: Index, keep: set<NodeId>, id: NodeId)
    requires Consistent(x) && keep <= x.nodes.Keys && id in keep
    ensures id in Restricted(x, keep).nodes
    ensures Removed(Restricted(x, keep), id) == Restricted(x, keep - {id})
    ensures Consistent(Restricted(x, keep - {id}))
  {
    var y := Restricted(x, keep);
    assert y.nodes.Keys == keep;
    RestrictedConsistent(x, keep);
    RemovedIsRestricted(y, id);
    RestrictedTwice(x, keep, y.nodes.Keys - {id});
    assert keep * (y.nodes.Keys - {id}) == keep - {id};
  }

  /** No group or service there is lists the node. */
  predicate Unassigned(x: Index, id: NodeId) {
    id in x.nodes ==> x.nodes[id].groupID !in x.groups && x.nodes[id].serviceID !in x.services
  }

  /**
   Registration keeps the indexes consistent exactly when no list holds the node:
   re-registering an assigned node forgets its assignment but not its list entry.
   */
  lemma RegisteredConsistentIff(x: Index, id: NodeId, labels: Labels, kind: string, now: int)
    requires Consistent(x)
    ensures Consistent(Registered(x, id, labels, kind, now)) <==> Unassigned(x, id)
  {
    var y := Registered(x, id, labels, kind, now);
    if id in x.nodes && x.nodes[id].groupID in x.groups {
      assert GroupConsistent(x, x.nodes[id].groupID);
      assert !GroupConsistent(y, x.nodes[id].groupID);
    } else if id in x.nodes && x.nodes[id].serviceID in x.services {
      assert ServiceConsistent(x, x.nodes[id].serviceID);
      assert !ServiceConsistent(y, x.nodes[id].serviceID);
    } else {
      forall gid | gid in y.groups ensures GroupConsistent(y, gid) {
        assert GroupConsistent(x, gid);
      }
      forall sid | sid in y.services ensures ServiceConsistent(y, sid) {
        assert ServiceConsistent(x, sid);
      }
    }
  }

  /**
   One record is new, active and unassigned since now, whatever was known of the node; and
   the indexes stay consistent if and only if no list holds the node.
   */
  ghost predicate IsNewlyRegistered(x: Index, y: Index, req: RegisterRequest, now: int) {
    && y.nodes.Keys == x.nodes.Keys + {req.nodeID} && y.groups == x.groups && y.services == x.services
    && y.nodes[req.nodeID] == NodeInfo(req.labels, req.kind, "active", now, now, "", "")
    && (forall id | id in x.nodes && id != req.nodeID :: y.nodes[id] == x.nodes[id])
    && (Consistent(x) ==> (Consistent(y) <==> Unassigned(x, req.nodeID)))
  }

  lemma RegisteredMeaning(x: Index, req: RegisterRequest, now: int)
    ensures IsNewlyRegistered(x, Registered(x, req.nodeID, req.labels, req.kind, now), req, now)
  {
    if Consistent(x) {
      RegisteredConsistentIff(x, req.nodeID, req.labels, req.kind, now);
    }
  }

  /** `rest` is `ids` without the first occurrence of the identifier, if there is one. */
  ghost predicate IsCut(rest: seq<NodeId>, ids: seq<NodeId>, id: NodeId) {
    if id in ids then exists i :: 0 <= i < |ids| && ids[i] == id && id !in ids[..i] && rest == ids[..i] + ids[i + 1..]
    else rest == ids
  }

  /** The node is cut from one group, if that exists, and no other changes. */
  ghost predicate IsCutFromGroup(
    was: map<string, seq<NodeId>>, now: map<string, seq<NodeId>>, gid: string, id: NodeId)
  {
    && now.Keys == was.Keys
    && forall g | g in was :: if g == gid then IsCut(now[g], was[g], id) else now[g] == was[g]
  }

  /** The node is cut from one service, with its priority, if it is listed there; no other service changes. */
  ghost predicate IsCutFromService(
    was: map<string, ServiceList>, now: map<string, ServiceList>, sid: string, id: NodeId)
  {
    && now.Keys == was.Keys
    && (forall s | s in was && s != sid :: now[s] == was[s])
    && (sid in was ==>
          && IsCut(now[sid].nodeIDs, was[sid].nodeIDs, id)
          && now[sid].priorities == if id in was[sid].nodeIDs then was[sid].priorities - {id} else was[sid].priorities)
  }

  lemma {:induction false} WithoutAt(ids: seq<NodeId>, i: nat)
    requires i < |ids| && ids[i] !in ids[..i]
    ensures Without(ids, ids[i]) == ids[..i] + ids[i + 1..]
  {
    if i == 0 {
    } else {
      assert ids[1..][..i - 1] == ids[1..i] && ids[..i] == [ids[0]] + ids[1..i];
      WithoutAt(ids[1..], i - 1);
    }
  }

  lemma FirstPlace(ids: seq<NodeId>, id: NodeId) returns (i: nat)
    requires id in ids
    ensures i < |ids| && ids[i] == id && id !in ids[..i]
  {
    if ids[0] == id {
      i := 0;
    } else {
      i := FirstPlace(ids[1..], id);
      assert ids[..i + 1] == [ids[0]] + ids[1..][..i];
      i := i + 1;
    }
  }

  lemma {:induction false} WithoutIsCut(ids: seq<NodeId>, id: NodeId)
    ensures IsCut(Without(ids, id), ids, id)
  {
    if id in ids {
      var i := FirstPlace(ids, id);
      WithoutAt(ids, i);
    } else {
      WithoutAbsent(ids, id);
    }
  }

  lemma GroupsWithoutMeaning(groups: map<string, seq<NodeId>>, gid: string, id: NodeId)
    ensures IsCutFromGroup(groups, GroupsWithout(groups, gid, id), gid, id)
  {
    if gid in groups {
      WithoutIsCut(groups[gid], id);
    }
  }

  lemma ServicesWithoutMeaning(services: map<string, ServiceList>, sid: string, id: NodeId)
    ensures IsCutFromService(services, ServicesWithout(services, sid, id), sid, id)
  {
    if sid in services {
      WithoutIsCut(services[sid].nodeIDs, id);
    }
  }

  // ----- the imperative server -----

  class GroupInfo {
    var nodeIDs: seq<NodeId>

    constructor ()
      ensures nodeIDs == []
    {
      nodeIDs := [];
    }
  }

  class ServiceInfo {
    var nodeIDs: seq<NodeId>
    var nodePriorities: map<NodeId, int>

    constructor ()
      ensures Value() == ServiceList([], map[])
    {
      nodeIDs, nodePriorities := [], map[];
    }

    function Value(): ServiceList
      reads this
    {
      ServiceList(nodeIDs, nodePriorities)
    }
  }

  ghost predicate FiltersAt(list: seq<NodeId>, ids: seq<NodeId>, keep: set<NodeId>, ps: seq<nat>) {
    && (forall i, j | 0 <= i < j < |ps| :: ps[i] < ps[j])
    && (forall i: nat | i < |ids| :: i in ps <==> ids[i] in keep)
    && |list| == |ps| && forall j | 0 <= j < |ps| :: ps[j] < |ids| && list[j] == ids[ps[j]]
  }

  /** `list` is what of `ids` is in `keep`, each place once and in order. */
  ghost predicate IsFiltered(list: seq<NodeId>, ids: seq<NodeId>, keep: set<NodeId>) {
    exists ps: seq<nat> :: FiltersAt(list, ids, keep, ps)
  }

  lemma FiltersMore(list: seq<NodeId>, ids: seq<NodeId>, keep: set<NodeId>, ps: seq<nat>, id: NodeId)
    requires FiltersAt(list, ids, keep, ps)
    ensures if id in keep then FiltersAt(list + [id], ids + [id], keep, ps + [|ids|])
            else FiltersAt(list, ids + [id], keep, ps)
  {
    var more := ids + [id];
    assert forall i | 0 <= i < |ids| :: more[i] == ids[i];
    if id in keep {
      var qs := ps + [|ids|];
      forall i: nat | i < |more| ensures i in qs <==> more[i] in keep {
        assert i in qs <==> i in ps || i == |ids|;
      }
    }
  }

  lemma {:induction false} KeptSnoc(ids: seq<NodeId>, id: NodeId, keep: set<NodeId>)
    ensures Kept(ids + [id], keep) == Kept(ids, keep) + if id in keep then [id] else []
  {
    if ids == [] {
      assert [] + [id] == [id];
    } else {
      KeptSnoc(ids[1..], id, keep);
      assert (ids + [id])[1..] == ids[1..] + [id];
    }
  }

  lemma {:induction false} KeptFilters(ids: seq<NodeId>, keep: set<NodeId>) returns (ps: seq<nat>)
    ensures FiltersAt(Kept(ids, keep), ids, keep, ps)
  {
    if ids == [] {
      ps := [];
    } else {
      var n := |ids| - 1;
      ps := KeptFilters(ids[..n], keep);
      FiltersMore(Kept(ids[..n], keep), ids[..n], keep, ps, ids[n]);
      KeptSnoc(ids[..n], ids[n], keep);
      assert ids == ids[..n] + [ids[n]];
      if ids[n] in keep {
        ps := ps + [n];
      }
    }
  }

  lemma KeptIsFiltered(ids: seq<NodeId>, keep: set<NodeId>)
    ensures IsFiltered(Kept(ids, keep), ids, keep)
  {
    var ps := KeptFilters(ids, keep);
  }

  ghost predicate IsServiceOf(was: ServiceList, list: ServiceList, keep: set<NodeId>) {
    && IsFiltered(list.nodeIDs, was.nodeIDs, keep)
    && (forall id :: id in list.priorities <==> id in was.priorities && id in keep)
    && (forall id | id in list.priorities :: list.priorities[id] == was.priorities[id])
  }

  /** `y` is `x` with only the nodes in `keep`: their records, and what of every list they are. */
  ghost predicate IsRestriction(x: Index, y: Index, keep: set<NodeId>) {
    && (forall id :: id in y.nodes <==> id in x.nodes && id in keep)
    && (forall id | id in y.nodes :: y.nodes[id] == x.nodes[id])
    && y.groups.Keys == x.groups.Keys && y.services.Keys == x.services.Keys
    && (forall gid | gid in x.groups :: IsFiltered(y.groups[gid], x.groups[gid], keep))
    && (forall sid | sid in x.services :: IsServiceOf(x.services[sid], y.services[sid], keep))
  }

  lemma RestrictedMeaning(x: Index, keep: set<NodeId>)
    ensures IsRestriction(x, Restricted(x, keep), keep)
  {
    forall gid | gid in x.groups ensures IsFiltered(Restricted(x, keep).groups[gid], x.groups[gid], keep) {
      KeptIsFiltered(x.groups[gid], keep);
    }
    forall sid | sid in x.services ensures IsServiceOf(x.services[sid], Restricted(x, keep).services[sid], keep) {
      KeptIsFiltered(x.services[sid].nodeIDs, keep);
    }
  }

  /** A node is cleaned up exactly when it has not been active for longer than the expiry, counted from registration. */
  lemma RegisteredThenCleaned(x: Index, id: NodeId, labels: Labels, kind: string, t: int, u: int, expiry: int)
    ensures var y := Registered(x, id, labels, kind, t);
            id in Restricted(y, Unexpired(y, u, expiry)).nodes <==> u - t <= expiry
  {
  }

  /** The search-and-cut loop the two removals share: the first occurrence goes, if there is one. */
  method CutOut(ids: seq<NodeId>, nodeID: NodeId) returns (rest: seq<NodeId>, found: bool)
    ensures rest == Without(ids, nodeID)
    ensures found <==> nodeID in ids
    ensures IsCut(rest, ids, nodeID)
  {
    WithoutIsCut(ids, nodeID);
    for i := 0 to |ids|
      invariant nodeID !in ids[..i]
    {
      if ids[i] == nodeID {
        WithoutAt(ids, i);
        return ids[..i] + ids[i + 1..], true;
      }
    }
    assert ids[..|ids|] == ids;
    WithoutAbsent(ids, nodeID);
    rest, found := ids, false;
  }

  datatype Response = Accepted | BadRequest | Unauthorized | NotFound | MethodNotAllowed

  class ControlPlaneServer {
    var nodes: map<NodeId, NodeInfo>
    var groups: map<string, GroupInfo>
    var services: map<string, ServiceInfo>

    constructor ()
      ensures Valid() && View() == Index(map[], map[], map[])
    {
      nodes, groups, services := map[], map[], map[];
    }

    /** No two keys share a record. */
    ghost predicate Valid()
      reads this
    {
      && (forall a, b | a in groups && b in groups && a != b :: groups[a] != groups[b])
      && (forall a, b | a in services && b in services && a != b :: services[a] != services[b])
    }

    function GroupLists(): map<string, seq<NodeId>>
      reads `groups, groups.Values
    {
      map gid | gid in groups :: groups[gid].nodeIDs
    }

    function ServiceLists(): map<string, ServiceList>
      reads `services, services.Values
    {
      map sid | sid in services :: services[sid].Value()
    }

    function View(): Index
      reads this, groups.Values, services.Values
    {
      Index(nodes, GroupLists(), ServiceLists())
    }

    method RemoveNodeFromGroup(nodeID: NodeId, groupID: string)
      requires Valid()
      modifies groups.Values
      ensures GroupLists() == GroupsWithout(old(GroupLists()), groupID, nodeID)
      ensures IsCutFromGroup(old(GroupLists()), GroupLists(), groupID, nodeID)
    {
      GroupsWithoutMeaning(GroupLists(), groupID, nodeID);
      if groupID in groups {
        var group := groups[groupID];
        var ids, found := CutOut(group.nodeIDs, nodeID);
        group.nodeIDs := ids;
      }
    }

    method RemoveNodeFromService(nodeID: NodeId, serviceID: string)
      requires Valid()
      modifies services.Values
      ensures ServiceLists() == ServicesWithout(old(ServiceLists()), serviceID, nodeID)
      ensures IsCutFromService(old(ServiceLists()), ServiceLists(), serviceID, nodeID)
    {
      ServicesWithoutMeaning(ServiceLists(), serviceID, nodeID);
      if serviceID in services {
        var service := services[serviceID];
        var ids, found := CutOut(service.nodeIDs, nodeID);
        if found {
          service.nodeIDs := ids;
          service.nodePriorities := service.nodePriorities - {nodeID};
        }
      }
    }

    /** Takes a node off the lists its record names, if it names any. */
    method LeaveLists(nodeID: NodeId, node: NodeInfo)
      requires Valid()
      modifies groups.Values, services.Values
      ensures GroupLists() == if node.groupID != "" then GroupsWithout(old(GroupLists()), node.groupID, nodeID)
          else old(GroupLists())
      ensures ServiceLists() == if node.serviceID != ""
                                then ServicesWithout(old(ServiceLists()), node.serviceID, nodeID)
                                else old(ServiceLists())
    {
      if node.groupID != "" {
        RemoveNodeFromGroup(nodeID, node.groupID);
      }
      if node.serviceID != "" {
        RemoveNodeFromService(nodeID, node.serviceID);
      }
    }

    /** What cleanup and deletion both do to one node. */
    method DropNode(nodeID: NodeId)
      requires Valid() && nodeID in nodes
      modifies `nodes, groups.Values, services.Values
      ensures View() == Removed(old(View()), nodeID)
    {
      LeaveLists(nodeID, nodes[nodeID]);
      nodes := nodes - {nodeID};
    }

    /**
     Whatever order the node map is ranged over, the result is the same: the unexpired
     nodes, every list filtered in order, and the indexes still consistent.
     */
    method CleanupNodes(now: int, expiry: int)
      requires Valid() && Consistent(View())
      modifies this`nodes, groups.Values, services.Values
      ensures View() == Restricted(old(View()), Unexpired(old(View()), now, expiry))
      ensures Consistent(View())
      ensures forall id :: id in nodes <==> id in old(nodes) && now - old(nodes)[id].lastActive <= expiry
      ensures IsRestriction(old(View()), View(), nodes.Keys)
    {
      ghost var start, keep := View(), nodes.Keys;
      var left := nodes.Keys;
      RestrictedToAll(start);
      while left != {}
        invariant left <= keep <= start.nodes.Keys
        invariant View() == Restricted(start, keep)
        invariant forall id | id in start.nodes ::
                    id in keep <==> id in left || now - start.nodes[id].lastActive <= expiry
      {
        var nodeID :| nodeID in left;
        left := left - {nodeID};
        RemovedFromRestricted(start, keep, nodeID);
        if now - nodes[nodeID].lastActive > expiry {
          DropNode(nodeID);
          keep := keep - {nodeID};
        }
      }
      assert keep == Unexpired(start, now, expiry);
      RestrictedConsistent(start, keep);
      RestrictedMeaning(start, keep);
      assert nodes.Keys == keep;
    }

    method HandleDeleteNode(nodeID: NodeId) returns (response: Response)
      requires Valid() && Consistent(View())
      modifies this`nodes, groups.Values, services.Values
      ensures response == if nodeID in old(nodes) then Accepted else NotFound
      ensures View() == if nodeID in old(nodes) then Restricted(old(View()), old(nodes).Keys - {nodeID})
          else old(View())
      ensures Consistent(View())
      ensures nodes == old(nodes) - {nodeID} && IsRestriction(old(View()), View(), nodes.Keys)
    {
      RestrictedMeaning(View(), nodes.Keys - {nodeID});
      if nodeID !in nodes {
        RestrictedToAll(View());
        assert nodes.Keys - {nodeID} == nodes.Keys;
        return NotFound;
      }
      RemovedIsRestricted(View(), nodeID);
      DropNode(nodeID);
      response := Accepted;
    }

    /** `body` is the decoded request, if it could be decoded. */
    method HandleNodeRegister(httpMethod: string, body: Option<RegisterRequest>, now: int) returns (response: Response)
      requires Valid()
      modifies this`nodes
      ensures response == if httpMethod != "POST" then MethodNotAllowed
                          else if body.None? || body.value.nodeID == "" then BadRequest
                          else if body.value.kind != "fixed" && body.value.kind != "non-fixed" then BadRequest
                          else if body.value.token == "" then Unauthorized
                          else Accepted
      ensures !response.Accepted? ==> View() == old(View())
      ensures response.Accepted? ==>
                View() == Registered(old(View()), body.value.nodeID, body.value.labels, body.value.kind, now)
      ensures response.Accepted? ==> IsNewlyRegistered(old(View()), View(), body.value, now)
    {
      if httpMethod != "POST" {
        return MethodNotAllowed;
      }
      if body.None? {
        return BadRequest;
      }
      var req := body.value;
      if req.nodeID == "" {
        return BadRequest;
      }
      if req.kind != "fixed" && req.kind != "non-fixed" {
        return BadRequest;
      }
      if req.token == "" {
        return Unauthorized;
      }
      RegisteredMeaning(View(), req, now);
      nodes := nodes[req.nodeID := NodeInfo(req.labels, req.kind, "active", now, now, "", "")];
      response := Accepted;
    }
  }
}
