/**
 The gateway's own copy of the ring: an immutable snapshot rebuilt from the node
 list, and the cursor walk that reads a key's owners off it.  It must agree with
 the cluster's router.
 */
module RingRouters {
  import opened Text
  import opened Nodes
  import opened Ring
  import opened Routers

  /** The ring of a node list: later virtual nodes overwrite earlier ones. */
  function PlacedNode(hash: string -> nat, ring: map<nat, NodeInfo>, node: NodeInfo, k: nat): map<nat, NodeInfo> {
    if k == 0 then ring else PlacedNode(hash, ring, node, k - 1)[Position(hash, node.nodeId, k - 1) := node]
  }

  function Rebuilt(hash: string -> nat, vnodes: nat, nodes: seq<NodeInfo>): map<nat, NodeInfo> {
    if nodes == [] then map[]
    else PlacedNode(hash, Rebuilt(hash, vnodes, nodes[..|nodes| - 1]), nodes[|nodes| - 1], vnodes)
  }

  /** The distinct ids on the ring. */
  ghost function IdsOn(ring: map<nat, NodeInfo>): set<string> {
    set n | n in ring.Values :: n.nodeId
  }

  lemma {:induction false} ImageSize(ns: set<NodeInfo>)
    ensures |set n | n in ns :: n.nodeId| <= |ns|
    decreases |ns|
  {
    if ns != {} {
      var x :| x in ns;
      ImageSize(ns - {x});
      var rest := set n | n in ns - {x} :: n.nodeId;
      assert (set n | n in ns :: n.nodeId) == rest + {x.nodeId};
    }
  }

  /** There are never more ids than nodes on the ring, so the walk reaches the count. */
  lemma CountReachable(ring: map<nat, NodeInfo>)
    ensures |IdsOn(ring)| <= OnRing(ring)
  {
    ImageSize(ring.Values);
  }

  /** After `m` steps the walk has collected `owners`. */
  ghost predicate CursorAt(ring: map<nat, NodeInfo>, h: nat, m: nat, owners: seq<NodeInfo>) {
    m <= |Circle(ring, h)| == |ring| && owners == Firsts(Circle(ring, h)[..m])
  }

  lemma CursorStart(ring: map<nat, NodeInfo>, h: nat)
    ensures CursorAt(ring, h, 0, [])
  {
    hide Clockwise;
    ClockwiseIn(ring, h);
    assert Circle(ring, h)[..0] == [];
  }

  /** Short of the count there is a next position, and it is the one under the cursor. */
  lemma CursorStep(ring: map<nat, NodeInfo>, h: nat, m: nat, owners: seq<NodeInfo>)
    requires CursorAt(ring, h, m, owners) && |owners| < OnRing(ring)
    ensures m < |ring| == |Keys(ring.Keys)| && Around(LowerBound(ring, h), m, |ring|) < |ring|
    ensures
      var p := Keys(ring.Keys)[Around(LowerBound(ring, h), m, |ring|)];
      p in ring && CursorAt(ring, h, m + 1, if ring[p] in owners then owners else owners + [ring[p]])
  {
    hide Circle, Firsts, Keys, OnRing;
    CursorGoesOn(ring, h, m, owners);
    WalkIsClockwise(ring, h, m);
    CircleAt(ring, h, m);
    FirstsNext(Circle(ring, h), m);
  }

  lemma CursorGoesOn(ring: map<nat, NodeInfo>, h: nat, m: nat, owners: seq<NodeInfo>)
    requires CursorAt(ring, h, m, owners) && |owners| < OnRing(ring)
    ensures m < |ring|
  {
    hide Circle, Firsts, OnRing;
    PreferenceSize(ring, h);
    assert Circle(ring, h)[..|Circle(ring, h)|] == Circle(ring, h);
  }

  /** A stopped cursor holds a prefix of the preference list. */
  lemma CursorResult(ring: map<nat, NodeInfo>, h: nat, m: nat, owners: seq<NodeInfo>)
    requires CursorAt(ring, h, m, owners)
    ensures owners == Prefix(Preference(ring, h), |owners|)
  {
    hide Circle, Firsts;
    FirstsPrefix(Circle(ring, h), m);
  }

  class RingRouter {
    const hash: string -> nat
    const vnodes: nat
    var ring: map<nat, NodeInfo>
    var physicalCount: nat

    /** The snapshot's count belongs to its ring. */
    ghost predicate Valid()
      reads this
    {
      physicalCount == |IdsOn(ring)|
    }

    constructor (h: string -> nat, v: nat)
      ensures Valid() && hash == h && vnodes == v && ring == map[]
    {
      hash, vnodes, ring, physicalCount := h, v, map[], 0;
    }

    method Rebuild(nodes: seq<NodeInfo>)
      modifies this
      ensures Valid() && ring == Rebuilt(hash, vnodes, nodes)
      ensures forall p | p in ring :: ring[p] in nodes && Owns(hash, vnodes, ring[p].nodeId, p)
      ensures forall n, i: nat | n in nodes && i < vnodes :: Position(hash, n.nodeId, i) in ring
    {
      forall p | p in Rebuilt(hash, vnodes, nodes) { RebuiltFrom(hash, vnodes, nodes, p); }
      forall n, i: nat | n in nodes && i < vnodes { RebuiltHas(hash, vnodes, nodes, n, i); }
      var next: map<nat, NodeInfo> := map[];
      var i := 0;
      while i < |nodes|
        invariant 0 <= i <= |nodes| && next == Rebuilt(hash, vnodes, nodes[..i])
      {
        assert nodes[..i + 1][..i] == nodes[..i];
        ghost var before := next;
        var k := 0;
        while k < vnodes
          invariant 0 <= k <= vnodes && next == PlacedNode(hash, before, nodes[i], k)
        {
          next := next[hash(VNodeKey(nodes[i].nodeId, k)) := nodes[i]];
          k := k + 1;
        }
        i := i + 1;
      }
      assert nodes[..i] == nodes;
      var ids: set<string> := set n | n in next.Values :: n.nodeId;
      ring, physicalCount := next, |ids|;
    }

    /** Nothing on an unbuilt ring; else the cursor walk. */
    method OwnersFor(key: string, n: int) returns (owners: seq<NodeInfo>)
      requires Valid()
      ensures |ring| > 0 ==> |owners| == (if Wanted(n) < physicalCount then Wanted(n) else physicalCount)
      ensures |ring| > 0 ==>
                |owners| == Smaller(if n >= 1 then n else 1, |set node | node in ring.Values :: node.nodeId|)
      ensures owners == Prefix(Preference(ring, hash(key)), |owners|)
      ensures |ring| == 0 ==> owners == []
    {
      hide Preference, OnRing;
      if |ring| == 0 { return []; }
      SomeId(ring);
      CountReachable(ring);
      owners := Collect(ring, hash(key), Wanted(n), physicalCount);
    }

    /** The cursor walk: stops at `want` owners or when every counted node has been met. */
    static method Collect(ring: map<nat, NodeInfo>, h: nat, want: nat, count: nat) returns (owners: seq<NodeInfo>)
      requires 0 < want && 0 < count <= OnRing(ring)
      ensures |owners| == (if want < count then want else count)
      ensures owners == Prefix(Preference(ring, h), |owners|)
    {
      hide CursorAt, Keys, LowerBound, Preference, OnRing, Around, Prefix;
      var keys := Keys(ring.Keys);
      var cursor := LowerBound(ring, h);
      ghost var start := cursor;
      if cursor == |keys| { cursor := 0; }
      owners := [];
      ghost var m := 0;
      CursorStart(ring, h);
      CursorFirst(ring, h);
      while |owners| < want
        invariant CursorAt(ring, h, m, owners) && m <= |keys| == |ring|
        invariant |owners| <= want && |owners| < count
        invariant m < |keys| ==> cursor == Around(start, m, |keys|)
        decreases |keys| - m
      {
        CursorStep(ring, h, m, owners);
        var node := ring[keys[cursor]];
        if node !in owners { owners := owners + [node]; }
        m := m + 1;
        if |owners| == count { break; }
        cursor := Router.Advance(cursor, |keys|, start, m - 1);
      }
      CursorResult(ring, h, m, owners);
    }
  }

  lemma CursorFirst(ring: map<nat, NodeInfo>, h: nat)
    requires OnRing(ring) > 0
    ensures |Keys(ring.Keys)| == |ring| > 0
    ensures Around(LowerBound(ring, h), 0, |ring|) ==
            if LowerBound(ring, h) == |ring| then 0 else LowerBound(ring, h)
  {
    hide Keys, LowerBound;
    var x :| x in ring.Values;
    var p :| p in ring && ring[p] == x;
    assert ring.Keys != {};
    WalkIsClockwise(ring, h, 0);
  }

  lemma SomeId(ring: map<nat, NodeInfo>)
    requires |ring| > 0
    ensures |IdsOn(ring)| > 0
  {
    var p :| p in ring;
    assert ring[p] in ring.Values && ring[p].nodeId in IdsOn(ring);
  }

  // -------------------------------------------------------------------------
  // The two routers agree
  // -------------------------------------------------------------------------

  ghost function IdRing(ring: map<nat, NodeInfo>): map<nat, string> { map p | p in ring :: ring[p].nodeId }

  ghost predicate UniqueIds(nodes: seq<NodeInfo>) {
    forall i, j | 0 <= i < j < |nodes| :: nodes[i].nodeId != nodes[j].nodeId
  }

  lemma {:induction false} IdPlaced(hash: string -> nat, ring: map<nat, NodeInfo>, node: NodeInfo, k: nat)
    ensures IdRing(PlacedNode(hash, ring, node, k)) == Placed(hash, IdRing(ring), node.nodeId, k)
  {
    if k > 0 {
      IdPlaced(hash, ring, node, k - 1);
      var r := PlacedNode(hash, ring, node, k - 1);
      var p := Position(hash, node.nodeId, k - 1);
      assert IdRing(r[p := node]) == IdRing(r)[p := node.nodeId];
    }
  }

  lemma {:induction false} PlacedNodeFrom(hash: string -> nat, ring: map<nat, NodeInfo>, node: NodeInfo, k: nat, p: nat)
    requires p in PlacedNode(hash, ring, node, k)
    ensures
      var r := PlacedNode(hash, ring, node, k);
      (r[p] == node && Owns(hash, k, node.nodeId, p)) || (p in ring && r[p] == ring[p])
  {
    if k > 0 && p != Position(hash, node.nodeId, k - 1) {
      PlacedNodeFrom(hash, ring, node, k - 1, p);
      if Owns(hash, k - 1, node.nodeId, p) {
        var i: nat :| i < k - 1 && Position(hash, node.nodeId, i) == p;
        assert i < k;
      }
    }
  }

  lemma {:induction false} PlacedNodeHas(hash: string -> nat, ring: map<nat, NodeInfo>, node: NodeInfo, k: nat, p: nat)
    requires p in ring || Owns(hash, k, node.nodeId, p)
    ensures p in PlacedNode(hash, ring, node, k)
  {
    if k > 0 && p != Position(hash, node.nodeId, k - 1) {
      if p !in ring {
        var i: nat :| i < k && Position(hash, node.nodeId, i) == p;
        assert i < k - 1;
      }
      PlacedNodeHas(hash, ring, node, k - 1, p);
    }
  }

  lemma {:induction false} RebuiltHas(hash: string -> nat, vnodes: nat, nodes: seq<NodeInfo>, n: NodeInfo, i: nat)
    requires n in nodes && i < vnodes
    ensures Position(hash, n.nodeId, i) in Rebuilt(hash, vnodes, nodes)
    decreases |nodes|
  {
    hide PlacedNode;
    var init, x := nodes[..|nodes| - 1], nodes[|nodes| - 1];
    if n in init {
      RebuiltHas(hash, vnodes, init, n, i);
    } else {
      assert Owns(hash, vnodes, x.nodeId, Position(hash, n.nodeId, i));
    }
    PlacedNodeHas(hash, Rebuilt(hash, vnodes, init), x, vnodes, Position(hash, n.nodeId, i));
  }

  lemma {:induction false} RebuiltFrom(hash: string -> nat, vnodes: nat, nodes: seq<NodeInfo>, p: nat)
    requires p in Rebuilt(hash, vnodes, nodes)
    ensures
      var n := Rebuilt(hash, vnodes, nodes)[p];
      n in nodes && Owns(hash, vnodes, n.nodeId, p)
    decreases |nodes|
  {
    var init, x := nodes[..|nodes| - 1], nodes[|nodes| - 1];
    var r := Rebuilt(hash, vnodes, init);
    PlacedNodeFrom(hash, r, x, vnodes, p);
    if p in r { RebuiltFrom(hash, vnodes, init, p); }
    assert x in nodes && forall y | y in init :: y in nodes;
  }

  function Joins(nodes: seq<NodeInfo>): seq<RingOp> {
    seq(|nodes|, i requires 0 <= i < |nodes| => Join(nodes[i]))
  }

  ghost function IdSet(nodes: seq<NodeInfo>): set<string> { set n | n in nodes :: n.nodeId }

  /** Rebuilding from a list with unique ids is joining its nodes one after the other. */
  lemma {:induction false} RebuiltIsJoined(hash: string -> nat, vnodes: nat, nodes: seq<NodeInfo>)
    requires UniqueIds(nodes)
    ensures
      var s := Ran(hash, vnodes, Joins(nodes));
      s.vnodes == vnodes && s.ring == IdRing(Rebuilt(hash, vnodes, nodes)) && s.nodes.Keys == IdSet(nodes)
    decreases |nodes|
  {
    if nodes != [] {
      var init, x := nodes[..|nodes| - 1], nodes[|nodes| - 1];
      assert Joins(nodes)[..|nodes| - 1] == Joins(init) && Joins(nodes)[|nodes| - 1] == Join(x);
      RebuiltIsJoined(hash, vnodes, init);
      IdPlaced(hash, Rebuilt(hash, vnodes, init), x, vnodes);
      IdSetSnoc(nodes);
      assert x.nodeId !in IdSet(init);
    } else {
      assert IdRing(map[]) == map[];
    }
  }

  lemma IdSetSnoc(nodes: seq<NodeInfo>)
    requires nodes != []
    ensures IdSet(nodes) == IdSet(nodes[..|nodes| - 1]) + {nodes[|nodes| - 1].nodeId}
  {
    assert nodes == nodes[..|nodes| - 1] + [nodes[|nodes| - 1]];
  }

  /** The router `s` knows exactly the listed nodes, at the listed addresses, on a collision-free ring. */
  ghost predicate SameCluster(hash: string -> nat, nodes: seq<NodeInfo>, s: RouterState) {
    && UniqueIds(nodes) && s.nodes.Keys == IdSet(nodes)
    && (forall n | n in nodes :: n.nodeId in s.nodes && s.nodes[n.nodeId] == n)
    && NoCollision(hash, s.vnodes, s.nodes.Keys) && IsRingOf(hash, s.vnodes, s.nodes.Keys, s.ring)
  }

  ghost function WithInfos(s: RouterState): map<nat, NodeInfo>
    requires forall p | p in s.ring :: s.ring[p] in s.nodes
  {
    map p | p in s.ring :: s.nodes[s.ring[p]]
  }

  lemma JoinsWithin(nodes: seq<NodeInfo>)
    ensures Within(Joins(nodes), IdSet(nodes))
  {
    forall op | op in Joins(nodes) ensures OpId(op) in IdSet(nodes) {
      var i :| 0 <= i < |nodes| && op == Join(nodes[i]);
      assert nodes[i] in nodes;
    }
  }

  /** The gateway's ring, addresses aside, is the router's. */
  lemma SameIdRing(hash: string -> nat, nodes: seq<NodeInfo>, s: RouterState)
    requires SameCluster(hash, nodes, s)
    ensures IdRing(Rebuilt(hash, s.vnodes, nodes)) == s.ring
  {
    hide NoCollision, IsRingOf, Rebuilt, IdRing, Ran, UniqueIds, Within, Joins;
    RebuiltIsJoined(hash, s.vnodes, nodes);
    JoinsWithin(nodes);
    RanIsRingOf(hash, s.vnodes, Joins(nodes), IdSet(nodes));
    RingOfUnique(hash, s.vnodes, IdSet(nodes), IdRing(Rebuilt(hash, s.vnodes, nodes)), s.ring);
  }

  lemma SnapshotMirrorsRouter(hash: string -> nat, nodes: seq<NodeInfo>, s: RouterState)
    requires SameCluster(hash, nodes, s)
    ensures forall p | p in s.ring :: s.ring[p] in s.nodes
    ensures Rebuilt(hash, s.vnodes, nodes) == WithInfos(s)
  {
    hide NoCollision, Rebuilt, Owns, UniqueIds;
    var j := Rebuilt(hash, s.vnodes, nodes);
    SameIdRing(hash, nodes, s);
    assert j.Keys == IdRing(j).Keys;
    forall p | p in j ensures s.nodes[s.ring[p]] == j[p] {
      RebuiltFrom(hash, s.vnodes, nodes, p);
      assert IdRing(j)[p] == j[p].nodeId;
    }
  }

  lemma CircleWithInfos(s: RouterState, h: nat)
    requires Coherent(s)
    ensures forall id | id in Circle(s.ring, h) :: id in s.nodes
    ensures Circle(WithInfos(s), h) == Infos(s.nodes, Circle(s.ring, h))
  {
    hide Clockwise;
    ClockwiseSame(s.ring, WithInfos(s), h);
    ClockwiseIn(s.ring, h);
    KnownOwners(s, Clockwise(s.ring, h));
  }

  lemma KnownOwners(s: RouterState, ps: seq<nat>)
    requires Coherent(s) && forall p | p in ps :: p in s.ring
    ensures forall id | id in At(s.ring, ps) :: id in s.nodes
    ensures At(WithInfos(s), ps) == Infos(s.nodes, At(s.ring, ps))
  {
    forall i | 0 <= i < |ps|
      ensures At(s.ring, ps)[i] in s.nodes && At(WithInfos(s), ps)[i] == s.nodes[At(s.ring, ps)[i]]
    {
      assert ps[i] in ps;
    }
  }

  /** The walk visits the same positions whatever sits on them. */
  lemma ClockwiseSame<T, U>(r: map<nat, T>, q: map<nat, U>, h: nat)
    requires r.Keys == q.Keys
    ensures Clockwise(r, h) == Clockwise(q, h)
  {
    hide Keys;
    assert From(r, h) == From(q, h) && Before(r, h) == Before(q, h);
  }

  /** Distinct ids have distinct addresses-with-id, so first occurrences correspond. */
  lemma {:induction false} FirstsInfos(nodes: map<string, NodeInfo>, ids: seq<string>)
    requires (forall id | id in ids :: id in nodes) && forall id | id in nodes :: nodes[id].nodeId == id
    ensures forall id | id in Firsts(ids) :: id in nodes
    ensures Firsts(Infos(nodes, ids)) == Infos(nodes, Firsts(ids))
    decreases |ids|
  {
    if ids != [] {
      var init, x := ids[..|ids| - 1], ids[|ids| - 1];
      assert ids == init + [x] && x in ids && forall id | id in init :: id in ids;
      FirstsInfos(nodes, init);
      FirstsInfosSnoc(nodes, init, x);
    }
  }

  lemma FirstsInfosSnoc(nodes: map<string, NodeInfo>, init: seq<string>, x: string)
    requires (forall id | id in init :: id in nodes) && x in nodes && forall id | id in nodes :: nodes[id].nodeId == id
    requires forall id | id in Firsts(init) :: id in nodes
    requires Firsts(Infos(nodes, init)) == Infos(nodes, Firsts(init))
    ensures forall id | id in Firsts(init + [x]) :: id in nodes
    ensures Firsts(Infos(nodes, init + [x])) == Infos(nodes, Firsts(init + [x]))
  {
    hide Firsts;
    FirstsSnoc(init, x);
    FirstsSnoc(Infos(nodes, init), nodes[x]);
    assert Infos(nodes, init + [x]) == Infos(nodes, init) + [nodes[x]];
    InfosIn(nodes, Firsts(init), x);
    if x !in Firsts(init) { assert Infos(nodes, Firsts(init) + [x]) == Infos(nodes, Firsts(init)) + [nodes[x]]; }
  }

  lemma InfosIn(nodes: map<string, NodeInfo>, ids: seq<string>, x: string)
    requires (forall id | id in ids :: id in nodes) && x in nodes && forall id | id in nodes :: nodes[id].nodeId == id
    ensures nodes[x] in Infos(nodes, ids) <==> x in ids
  {
    if x in ids {
      var i :| 0 <= i < |ids| && ids[i] == x;
      assert Infos(nodes, ids)[i] == nodes[x];
    }
    if nodes[x] in Infos(nodes, ids) {
      var i :| 0 <= i < |ids| && Infos(nodes, ids)[i] == nodes[x];
      assert ids[i] in ids && nodes[ids[i]].nodeId == nodes[x].nodeId;
    }
  }

  /** Both rings give every key the same preference list. */
  lemma PreferencesAgree(s: RouterState, h: nat)
    requires Coherent(s)
    ensures forall id | id in Preference(s.ring, h) :: id in s.nodes
    ensures Preference(WithInfos(s), h) == Infos(s.nodes, Preference(s.ring, h))
  {
    hide Circle, Firsts;
    CircleWithInfos(s, h);
    FirstsInfos(s.nodes, Circle(s.ring, h));
  }

  lemma SameClusterCoherent(hash: string -> nat, nodes: seq<NodeInfo>, s: RouterState)
    requires SameCluster(hash, nodes, s)
    ensures Coherent(s)
  {
    forall id | id in s.nodes ensures s.nodes[id].nodeId == id {
      assert id in IdSet(nodes);
      var n :| n in nodes && n.nodeId == id;
    }
  }

  lemma CountsAgree(s: RouterState)
    requires Coherent(s)
    ensures IdsOn(WithInfos(s)) == s.ring.Values
  {
    var w := WithInfos(s);
    forall id ensures id in IdsOn(w) <==> id in s.ring.Values {
      if id in IdsOn(w) {
        var n :| n in w.Values && n.nodeId == id;
        var p :| p in w && w[p] == n;
        assert s.ring[p] == id;
      }
      if id in s.ring.Values {
        var p :| p in s.ring && s.ring[p] == id;
        assert w[p] in w.Values && w[p].nodeId == id;
      }
    }
  }

  /**
   For the same nodes, virtual-node count and hash, without collisions, the
   gateway's walk with its own stopping rule returns exactly the owners the
   cluster's router does, for every key and every replica count.
   */
  lemma GatewayAgreesWithRouter(
    hash: string -> nat, nodes: seq<NodeInfo>, s: RouterState, h: nat, n: int, got: seq<NodeInfo>)
    requires SameCluster(hash, nodes, s) && |s.ring| > 0
    requires
      var ring := Rebuilt(hash, s.vnodes, nodes);
      && |got| == (if Wanted(n) < |IdsOn(ring)| then Wanted(n) else |IdsOn(ring)|)
      && got == Prefix(Preference(ring, h), |got|)
    ensures Coherent(s) && forall id | id in OwnerIds(s, h, n) :: id in s.nodes
    ensures got == Infos(s.nodes, OwnerIds(s, h, n))
  {
    hide Preference, Rebuilt, IdsOn, SameCluster;
    SameClusterCoherent(hash, nodes, s);
    SnapshotMirrorsRouter(hash, nodes, s);
    PreferencesAgree(s, h);
    CountsAgree(s);
    PreferenceSize(s.ring, h);
    PrefixInfos(s.nodes, Preference(s.ring, h), |got|);
  }

  lemma PrefixInfos(nodes: map<string, NodeInfo>, ids: seq<string>, k: nat)
    requires forall id | id in ids :: id in nodes
    ensures (forall id | id in Prefix(ids, k) :: id in nodes) &&
              Prefix(Infos(nodes, ids), k) == Infos(nodes, Prefix(ids, k))
  {
  }
}
