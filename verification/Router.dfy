/**
 The cluster's router: physical nodes, their virtual nodes on the ring, and the
 circular walk that finds a key's owners.
 */
module Routers {
  import opened Orders
  import opened Text
  import opened Nodes
  import opened Ring

  function VNodeKey(id: string, i: nat): string { id + "#vn" + Dec(i) }

  function Position(hash: string -> nat, id: string, i: nat): nat { hash(VNodeKey(id, i)) }

  /** The text that is hashed, as both routers must spell it. */
  lemma VNodeKeyText()
    ensures VNodeKey("n1", 0) == "n1#vn0" && VNodeKey("n1", 12) == "n1#vn12"
  {
    assert Dec(0) == "0" && Dec(1) == "1" && Dec(12) == Dec(1) + "2";
  }

  datatype RouterState = RouterState(vnodes: nat, ring: map<nat, string>, nodes: map<string, NodeInfo>)

  /** The ring with the first `k` virtual nodes of `id` put on it, later ones overwriting. */
  function Placed(hash: string -> nat, ring: map<nat, string>, id: string, k: nat): map<nat, string> {
    if k == 0 then ring else Placed(hash, ring, id, k - 1)[Position(hash, id, k - 1) := id]
  }

  /** A node already known keeps the address it was first seen with. */
  function Added(hash: string -> nat, s: RouterState, info: NodeInfo): RouterState {
    if info.nodeId in s.nodes then s
    else s.(nodes := s.nodes[info.nodeId := info], ring := Placed(hash, s.ring, info.nodeId, s.vnodes))
  }

  function Removed(s: RouterState, id: string): RouterState {
    if id !in s.nodes then s else s.(nodes := s.nodes - {id}, ring := Cleared(s.ring, id))
  }

  /** Every virtual node belongs to a known node, and nodes are filed under their own id. */
  ghost predicate Coherent(s: RouterState) {
    (forall p | p in s.ring :: s.ring[p] in s.nodes) && forall id | id in s.nodes :: s.nodes[id].nodeId == id
  }

  lemma {:induction false} PlacedValues(hash: string -> nat, ring: map<nat, string>, id: string, k: nat, p: nat)
    requires p in Placed(hash, ring, id, k)
    ensures Placed(hash, ring, id, k)[p] == id || (p in ring && Placed(hash, ring, id, k)[p] == ring[p])
  {
    if k > 0 && p != Position(hash, id, k - 1) { PlacedValues(hash, ring, id, k - 1, p); }
  }

  lemma AddedCoherent(hash: string -> nat, s: RouterState, info: NodeInfo)
    requires Coherent(s)
    ensures Coherent(Added(hash, s, info))
  {
    var t := Added(hash, s, info);
    if info.nodeId !in s.nodes {
      forall p | p in t.ring ensures t.ring[p] in t.nodes { PlacedValues(hash, s.ring, info.nodeId, s.vnodes, p); }
    }
  }

  lemma RemovedCoherent(s: RouterState, id: string)
    requires Coherent(s)
    ensures Coherent(Removed(s, id))
  {
  }

  // -------------------------------------------------------------------------
  // The ring depends on the node set alone
  // -------------------------------------------------------------------------

  /** No two virtual nodes of these ids share a position. */
  ghost predicate NoCollision(hash: string -> nat, vnodes: nat, ids: set<string>) {
    forall a, i: nat, b, j: nat | a in ids && b in ids && i < vnodes && j < vnodes
                                  && Position(hash, a, i) == Position(hash, b, j) :: a == b
  }

  /** `ring` holds exactly the virtual nodes of `ids`. */
  ghost predicate IsRingOf(hash: string -> nat, vnodes: nat, ids: set<string>, ring: map<nat, string>) {
    && (forall p | p in ring :: ring[p] in ids && Owns(hash, vnodes, ring[p], p))
    && (forall id, i: nat | id in ids && i < vnodes ::
          Position(hash, id, i) in ring && ring[Position(hash, id, i)] == id)
  }

  ghost predicate Owns(hash: string -> nat, vnodes: nat, id: string, p: nat) {
    exists i: nat :: i < vnodes && Position(hash, id, i) == p
  }

  lemma RingOfUnique(hash: string -> nat, vnodes: nat, ids: set<string>, r: map<nat, string>, q: map<nat, string>)
    requires IsRingOf(hash, vnodes, ids, r) && IsRingOf(hash, vnodes, ids, q)
    ensures r == q
  {
    RingOfBelow(hash, vnodes, ids, r, q);
    RingOfBelow(hash, vnodes, ids, q, r);
  }

  lemma RingOfBelow(hash: string -> nat, vnodes: nat, ids: set<string>, r: map<nat, string>, q: map<nat, string>)
    requires IsRingOf(hash, vnodes, ids, r) && IsRingOf(hash, vnodes, ids, q)
    ensures forall p | p in r :: p in q && q[p] == r[p]
  {
    forall p | p in r ensures p in q && q[p] == r[p] {
      assert Owns(hash, vnodes, r[p], p);
      var i: nat :| i < vnodes && Position(hash, r[p], i) == p;
      assert Position(hash, r[p], i) in q;
    }
  }

  lemma {:induction false} PlacedHas(hash: string -> nat, ring: map<nat, string>, id: string, k: nat, i: nat)
    requires i < k
    ensures Position(hash, id, i) in Placed(hash, ring, id, k) && Placed(hash, ring, id, k)[Position(hash, id, i)] == id
  {
    if i < k - 1 { PlacedHas(hash, ring, id, k - 1, i); }
  }

  lemma {:induction false} PlacedKeeps(hash: string -> nat, ring: map<nat, string>, id: string, k: nat, p: nat)
    ensures p in Placed(hash, ring, id, k) <==> p in ring || Owns(hash, k, id, p)
    ensures p in ring && !Owns(hash, k, id, p) ==> Placed(hash, ring, id, k)[p] == ring[p]
  {
    if k > 0 {
      PlacedKeeps(hash, ring, id, k - 1, p);
      if Owns(hash, k - 1, id, p) {
        var i: nat :| i < k - 1 && Position(hash, id, i) == p;
        assert i < k;
      }
      if p == Position(hash, id, k - 1) { assert Owns(hash, k, id, p); }
    }
  }

  lemma PlacedExactly(hash: string -> nat, ring: map<nat, string>, id: string, k: nat, p: nat)
    ensures
      var r := Placed(hash, ring, id, k);
      && (p in r <==> p in ring || Owns(hash, k, id, p))
      && (p in r ==> r[p] == if Owns(hash, k, id, p) then id else ring[p])
  {
    PlacedKeeps(hash, ring, id, k, p);
    if Owns(hash, k, id, p) {
      var i: nat :| i < k && Position(hash, id, i) == p;
      PlacedHas(hash, ring, id, k, i);
    }
  }

  lemma PlacedIsRingOf(hash: string -> nat, vnodes: nat, ids: set<string>, ring: map<nat, string>, id: string)
    requires IsRingOf(hash, vnodes, ids, ring) && NoCollision(hash, vnodes, ids + {id})
    ensures IsRingOf(hash, vnodes, ids + {id}, Placed(hash, ring, id, vnodes))
  {
    var r := Placed(hash, ring, id, vnodes);
    forall p | p in r ensures r[p] in ids + {id} && Owns(hash, vnodes, r[p], p) {
      PlacedKeeps(hash, ring, id, vnodes, p);
      if Owns(hash, vnodes, id, p) {
        var i: nat :| i < vnodes && Position(hash, id, i) == p;
        PlacedHas(hash, ring, id, vnodes, i);
      }
    }
    forall a, i: nat | a in ids + {id} && i < vnodes ensures Position(hash, a, i) in r && r[Position(hash, a, i)] == a {
      if a == id {
        PlacedHas(hash, ring, id, vnodes, i);
      } else {
        PlacedKeeps(hash, ring, id, vnodes, Position(hash, a, i));
        assert !Owns(hash, vnodes, id, Position(hash, a, i));
      }
    }
  }

  lemma ClearedIsRingOf(hash: string -> nat, vnodes: nat, ids: set<string>, ring: map<nat, string>, id: string)
    requires IsRingOf(hash, vnodes, ids, ring)
    ensures IsRingOf(hash, vnodes, ids - {id}, Cleared(ring, id))
  {
  }

  /** Joins and departures, in the order the router saw them. */
  datatype RingOp = Join(info: NodeInfo) | Depart(id: string)

  function OpId(op: RingOp): string { if op.Join? then op.info.nodeId else op.id }

  function Ran(hash: string -> nat, vnodes: nat, ops: seq<RingOp>): RouterState {
    if ops == [] then RouterState(vnodes, map[], map[])
    else
      var s, op := Ran(hash, vnodes, ops[..|ops| - 1]), ops[|ops| - 1];
      if op.Join? then Added(hash, s, op.info) else Removed(s, op.id)
  }

  ghost predicate Within(ops: seq<RingOp>, ids: set<string>) { forall op | op in ops :: OpId(op) in ids }

  lemma {:induction false} RanIsRingOf(hash: string -> nat, vnodes: nat, ops: seq<RingOp>, all: set<string>)
    requires Within(ops, all) && NoCollision(hash, vnodes, all)
    ensures
      var s := Ran(hash, vnodes, ops);
      s.vnodes == vnodes && s.nodes.Keys <= all && IsRingOf(hash, vnodes, s.nodes.Keys, s.ring)
    decreases |ops|
  {
    if ops != [] {
      var init, op := ops[..|ops| - 1], ops[|ops| - 1];
      assert op in ops && forall o | o in init :: o in ops;
      RanIsRingOf(hash, vnodes, init, all);
      var s := Ran(hash, vnodes, init);
      if op.Join? && op.info.nodeId !in s.nodes {
        assert s.nodes.Keys + {op.info.nodeId} <= all;
        PlacedIsRingOf(hash, vnodes, s.nodes.Keys, s.ring, op.info.nodeId);
        assert Added(hash, s, op.info).nodes.Keys == s.nodes.Keys + {op.info.nodeId};
      } else if op.Depart? && op.id in s.nodes {
        ClearedIsRingOf(hash, vnodes, s.nodes.Keys, s.ring, op.id);
        assert Removed(s, op.id).nodes.Keys == s.nodes.Keys - {op.id};
      }
    }
  }

  /** Two histories that end with the same nodes end with the same ring, whatever their order. */
  lemma RingIndependentOfHistory(hash: string -> nat, vnodes: nat, xs: seq<RingOp>, ys: seq<RingOp>, all: set<string>)
    requires Within(xs, all) && Within(ys, all) && NoCollision(hash, vnodes, all)
    requires Ran(hash, vnodes, xs).nodes.Keys == Ran(hash, vnodes, ys).nodes.Keys
    ensures Ran(hash, vnodes, xs).ring == Ran(hash, vnodes, ys).ring
  {
    RanIsRingOf(hash, vnodes, xs, all);
    RanIsRingOf(hash, vnodes, ys, all);
    RingOfUnique(hash, vnodes, Ran(hash, vnodes, xs).nodes.Keys, Ran(hash, vnodes, xs).ring,
                 Ran(hash, vnodes, ys).ring);
  }

  /** Adding a node and removing it again is the identity. */
  lemma AddThenRemove(hash: string -> nat, s: RouterState, info: NodeInfo)
    requires info.nodeId !in s.nodes
    requires IsRingOf(hash, s.vnodes, s.nodes.Keys, s.ring)
    requires NoCollision(hash, s.vnodes, s.nodes.Keys + {info.nodeId})
    ensures Removed(Added(hash, s, info), info.nodeId) == s
  {
    var id := info.nodeId;
    var t := Added(hash, s, info);
    PlacedIsRingOf(hash, s.vnodes, s.nodes.Keys, s.ring, id);
    ClearedIsRingOf(hash, s.vnodes, s.nodes.Keys + {id}, t.ring, id);
    assert s.nodes.Keys + {id} - {id} == s.nodes.Keys;
    RingOfUnique(hash, s.vnodes, s.nodes.Keys, Cleared(t.ring, id), s.ring);
    assert t.nodes - {id} == s.nodes;
  }

  /** A newcomer only inserts itself: without it, every preference list reads as before. */
  lemma AddingInsertsOnly(hash: string -> nat, s: RouterState, info: NodeInfo, h: nat)
    requires info.nodeId !in s.nodes
    requires IsRingOf(hash, s.vnodes, s.nodes.Keys, s.ring)
    requires NoCollision(hash, s.vnodes, s.nodes.Keys + {info.nodeId})
    ensures Without(Preference(Added(hash, s, info).ring, h), info.nodeId) == Preference(s.ring, h)
  {
    AddThenRemove(hash, s, info);
    RemovalFiltersPreference(Added(hash, s, info).ring, info.nodeId, h);
  }

  /** Distinct (id, index) pairs have distinct keys when ids cannot contain '#', so collisions are the hash's alone. */
  lemma VNodeKeyInjective(a: string, i: nat, b: string, j: nat)
    requires '#' !in a && '#' !in b && VNodeKey(a, i) == VNodeKey(b, j)
    ensures a == b && i == j
  {
    assert VNodeKey(a, i) == a + ['#'] + ("vn" + Dec(i)) && VNodeKey(b, j) == b + ['#'] + ("vn" + Dec(j));
    CutAt(a, '#', "vn" + Dec(i));
    CutAt(b, '#', "vn" + Dec(j));
    assert Dec(i) == ("vn" + Dec(i))[2..] && Dec(j) == ("vn" + Dec(j))[2..];
    DecInjective(i, j);
  }

  // -------------------------------------------------------------------------
  // Finding owners
  // -------------------------------------------------------------------------

  function Infos(nodes: map<string, NodeInfo>, ids: seq<string>): seq<NodeInfo>
    requires forall id | id in ids :: id in nodes
  {
    seq(|ids|, i requires 0 <= i < |ids| => nodes[ids[i]])
  }

  /** The first min(n, nodes) distinct nodes clockwise from `h`. */
  function OwnerIds(s: RouterState, h: nat, n: int): seq<string> { Prefix(Preference(s.ring, h), Wanted(n)) }

  /** Enough of the nodes are on the ring for the walk to end. */
  ghost predicate Represented(s: RouterState, n: int) {
    Wanted(n) <= OnRing(s.ring) || |s.nodes| <= OnRing(s.ring)
  }

  lemma RingWithinNodes(s: RouterState)
    requires Coherent(s)
    ensures s.ring.Values <= s.nodes.Keys && OnRing(s.ring) <= |s.nodes|
  {
    SubsetSize(s.ring.Values, s.nodes.Keys);
  }

  lemma PreferenceKnown(s: RouterState, h: nat)
    requires Coherent(s)
    ensures forall id | id in Preference(s.ring, h) :: id in s.nodes
  {
    PreferenceComplete(s.ring, h);
    forall id | id in Preference(s.ring, h) ensures id in s.nodes { assert id in Elements(Preference(s.ring, h)); }
  }

  /** When every node keeps a virtual node, any number of owners can be found. */
  lemma AllRepresented(s: RouterState, n: int)
    requires s.nodes.Keys <= s.ring.Values
    ensures Represented(s, n)
  {
    SubsetSize(s.nodes.Keys, s.ring.Values);
  }

  lemma ShorterIsPrefix(s: RouterState, h: nat, m: int, n: int)
    requires m <= n
    ensures OwnerIds(s, h, m) <= OwnerIds(s, h, n)
  {
  }

  lemma RingNotEmpty(s: RouterState)
    requires Coherent(s) && |s.ring| > 0
    ensures |s.nodes| > 0
  {
    var p :| p in s.ring;
    assert s.ring[p] in s.nodes;
  }

  /** After `m` steps the walk has collected `owners`. */
  ghost predicate WalkAt(s: RouterState, h: nat, m: nat, owners: seq<string>) {
    m <= |Circle(s.ring, h)| == |s.ring| && owners == Firsts(Circle(s.ring, h)[..m])
  }

  lemma WalkStart(s: RouterState, h: nat)
    ensures WalkAt(s, h, 0, [])
  {
    hide Clockwise;
    ClockwiseIn(s.ring, h);
    assert Circle(s.ring, h)[..0] == [];
  }

  /** Short of both stopping conditions there is still an unvisited position. */
  lemma WalkGoesOn(s: RouterState, h: nat, m: nat, want: nat, owners: seq<string>)
    requires Coherent(s) && WalkAt(s, h, m, owners) && (want <= OnRing(s.ring) || |s.nodes| <= OnRing(s.ring))
    requires |owners| < want && |owners| < |s.nodes|
    ensures m < |s.ring|
  {
    hide Circle, Firsts, Coherent, OnRing;
    FullWalk(s, h);
  }

  /** A whole turn meets everything on the ring. */
  lemma FullWalk(s: RouterState, h: nat)
    requires |Circle(s.ring, h)| == |s.ring|
    ensures |Firsts(Circle(s.ring, h)[..|s.ring|])| == OnRing(s.ring)
  {
    hide Circle, Firsts;
    assert Circle(s.ring, h)[..|s.ring|] == Circle(s.ring, h);
    PreferenceSize(s.ring, h);
  }

  /** One step: the position under the cursor is the next one clockwise. */
  lemma WalkStep(s: RouterState, h: nat, m: nat, want: nat, owners: seq<string>)
    requires Coherent(s) && WalkAt(s, h, m, owners) && (want <= OnRing(s.ring) || |s.nodes| <= OnRing(s.ring))
    requires |owners| < want && |owners| < |s.nodes|
    ensures m < |s.ring|
    ensures
      var p := Keys(s.ring.Keys)[Around(LowerBound(s.ring, h), m, |s.ring|)];
      p in s.ring && s.ring[p] in s.nodes &&
      WalkAt(s, h, m + 1, if s.ring[p] in owners then owners else owners + [s.ring[p]])
  {
    hide Circle, Firsts, Keys;
    WalkGoesOn(s, h, m, want, owners);
    WalkIsClockwise(s.ring, h, m);
    CircleAt(s.ring, h, m);
    FirstsNext(Circle(s.ring, h), m);
  }

  /** A walk that has met a stopping condition has collected the owners. */
  lemma WalkResult(s: RouterState, h: nat, m: nat, want: nat, owners: seq<string>)
    requires Coherent(s) && WalkAt(s, h, m, owners)
    requires |owners| == want || (|owners| == |s.nodes| && |owners| <= want)
    ensures owners == Prefix(Preference(s.ring, h), want)
  {
    hide OnRing, Circle, Firsts, Coherent;
    FirstsPrefix(Circle(s.ring, h), m);
    PreferenceSize(s.ring, h);
    RingWithinNodes(s);
  }

  function Smaller(a: nat, b: nat): nat { if a < b then a else b }

  class Router {
    const hash: string -> nat
    const vnodes: nat
    var ring: map<nat, string>
    var nodes: map<string, NodeInfo>

    function State(): RouterState
      reads this
    {
      RouterState(vnodes, ring, nodes)
    }

    constructor (h: string -> nat, v: nat)
      ensures hash == h && State() == RouterState(v, map[], map[])
    {
      hash, vnodes, ring, nodes := h, v, map[], map[];
    }

    method AddPhysicalNode(info: NodeInfo)
      modifies this
      ensures State() == Added(hash, old(State()), info)
      ensures info.nodeId in old(nodes) ==> nodes == old(nodes) && ring == old(ring)
      ensures info.nodeId !in old(nodes) ==>
                && nodes == old(nodes)[info.nodeId := info]
                && (forall p :: p in ring <==> p in old(ring) || Owns(hash, vnodes, info.nodeId, p))
                && (forall p | p in ring ::
                      ring[p] == if Owns(hash, vnodes, info.nodeId, p) then info.nodeId else old(ring)[p])
    {
      if info.nodeId in nodes { return; }
      forall p { PlacedExactly(hash, ring, info.nodeId, vnodes, p); }
      nodes := nodes[info.nodeId := info];
      var i := 0;
      while i < vnodes
        invariant 0 <= i <= vnodes
        invariant nodes == old(nodes)[info.nodeId := info]
        invariant ring == Placed(hash, old(ring), info.nodeId, i)
      {
        ring := ring[hash(VNodeKey(info.nodeId, i)) := info.nodeId];
        i := i + 1;
      }
    }

    method RemovePhysicalNode(id: string)
      modifies this
      ensures State() == Removed(old(State()), id)
      ensures id !in old(nodes) ==> nodes == old(nodes) && ring == old(ring)
      ensures id in old(nodes) ==>
                && nodes == old(nodes) - {id}
                && (forall p :: p in ring <==> p in old(ring) && old(ring)[p] != id)
                && (forall p | p in ring :: ring[p] == old(ring)[p])
    {
      if id !in nodes { return; }
      nodes := nodes - {id};
      var todo := ring.Keys;
      while todo != {}
        invariant todo <= ring.Keys && nodes == old(nodes) - {id}
        invariant forall p :: p in ring <==> p in old(ring) && (p in todo || old(ring)[p] != id)
        invariant forall p | p in ring :: ring[p] == old(ring)[p]
        decreases |todo|
      {
        var p :| p in todo;
        todo := todo - {p};
        if ring[p] == id { ring := ring - {p}; }
      }
      assert ring == Cleared(old(ring), id);
    }

    /** The circular walk; it ends because enough nodes are represented on the ring. */
    method FindOwners(key: string, replicas: int) returns (owners: seq<NodeInfo>)
      requires Coherent(State()) && Represented(State(), replicas)
      ensures forall id | id in OwnerIds(State(), hash(key), replicas) :: id in nodes
      ensures owners == Infos(nodes, OwnerIds(State(), hash(key), replicas))
      ensures |ring| > 0 ==> |owners| == Smaller(if replicas >= 1 then replicas else 1, |ring.Values|)
      ensures |ring| == 0 ==> owners == []
      ensures |owners| <= |Preference(ring, hash(key))|
      ensures forall i | 0 <= i < |owners| ::
                Preference(ring, hash(key))[i] in nodes && owners[i] == nodes[Preference(ring, hash(key))[i]]
    {
      hide Preference;
      var want := Wanted(replicas);
      var h := hash(key);
      PreferenceKnown(State(), h);
      PreferenceComplete(ring, h);
      if |ring| == 0 {
        assert ring.Values == {};
        return [];
      }
      var ids := Walk(State(), h, want);
      assert ids == OwnerIds(State(), h, replicas);
      return Infos(nodes, ids);
    }

    /** The iterator's next position, wrapping at the end. */
    static method Advance(it: nat, n: nat, ghost start: nat, ghost m: nat) returns (next: nat)
      requires start <= n && m < n && it == Around(start, m, n)
      ensures next < n && (m + 1 < n ==> next == Around(start, m + 1, n))
    {
      next := it + 1;
      if next == n { next := 0; }
    }

    static method Walk(s: RouterState, h: nat, want: nat) returns (owners: seq<string>)
      requires Coherent(s) && want > 0 && |s.ring| > 0
      requires want <= OnRing(s.ring) || |s.nodes| <= OnRing(s.ring)
      ensures owners == Prefix(Preference(s.ring, h), want)
    {
      hide WalkAt, Keys, LowerBound, Coherent, Preference, Prefix, OnRing;
      WalkStart(s, h);
      RingNotEmpty(s);
      var keys := Keys(s.ring.Keys);
      var it := LowerBound(s.ring, h);
      ghost var start := it;
      if it == |keys| { it := 0; }
      assert it == Around(start, 0, |keys|);
      owners := [];
      var chosen: set<string> := {};
      ghost var m := 0;
      while |owners| < want
        invariant WalkAt(s, h, m, owners) && m <= |keys|
        invariant |chosen| == |owners| < |s.nodes| && |owners| <= want
        invariant forall x :: x in chosen <==> x in owners
        invariant m < |keys| ==> it == Around(start, m, |keys|)
        decreases |keys| - m
      {
        WalkStep(s, h, m, want, owners);
        var phys := s.ring[keys[it]];
        if phys in s.nodes && phys !in chosen {
          chosen := chosen + {phys};
          owners := owners + [phys];
        }
        it := Advance(it, |keys|, start, m);
        m := m + 1;
        if |chosen| == |s.nodes| { break; }
      }
      WalkResult(s, h, m, want, owners);
    }
  }

  // -------------------------------------------------------------------------
  // Without representation the walk never ends
  // -------------------------------------------------------------------------

  /** The first `m` nodes met when the walk is never stopped. */
  ghost function Met(ring: map<nat, string>, h: nat, m: nat): seq<string>
    requires |Circle(ring, h)| > 0
  {
    seq(m, i requires 0 <= i < m => Circle(ring, h)[i % |Circle(ring, h)|])
  }

  /** The loop's own test, after `m` steps. */
  ghost predicate Stops(s: RouterState, h: nat, n: int, m: nat)
    requires |Circle(s.ring, h)| > 0
  {
    var got := |Firsts(Met(s.ring, h, m))|;
    got >= Wanted(n) || (m > 0 && got == |s.nodes|)
  }

  lemma MetOnRing(ring: map<nat, string>, h: nat, m: nat)
    requires |Circle(ring, h)| > 0
    ensures |Firsts(Met(ring, h, m))| <= OnRing(ring)
  {
    PreferenceComplete(ring, h);
    FirstsElements(Circle(ring, h));
    FirstsElements(Met(ring, h, m));
    forall x | x in Elements(Met(ring, h, m)) ensures x in Elements(Circle(ring, h)) {
      var i :| 0 <= i < m && Met(ring, h, m)[i] == x;
    }
    SubsetSize(Elements(Met(ring, h, m)), Elements(Circle(ring, h)));
  }

  lemma MetOnce(s: RouterState, h: nat, n: int)
    requires Coherent(s) && |Circle(s.ring, h)| > 0 && Represented(s, n)
    ensures Stops(s, h, n, |Circle(s.ring, h)|)
  {
    hide OnRing, Circle, Coherent, Firsts, Met;
    RingWithinNodes(s);
    PreferenceSize(s.ring, h);
    MetOneTurn(s.ring, h);
  }

  lemma MetOneTurn(ring: map<nat, string>, h: nat)
    requires |Circle(ring, h)| > 0
    ensures Met(ring, h, |Circle(ring, h)|) == Circle(ring, h)
  {
    hide Circle;
    OneTurn(Circle(ring, h));
  }

  lemma OneTurn(c: seq<string>)
    requires |c| > 0
    ensures seq(|c|, i requires 0 <= i < |c| => c[i % |c|]) == c
  {
    forall i | 0 <= i < |c| ensures c[i % |c|] == c[i] { SmallModulus(i, |c|); }
  }

  lemma SmallModulus(i: nat, d: nat)
    requires i < d
    ensures i % d == i
  {
  }

  /** On a non-empty ring the walk ends if and only if enough nodes are represented. */
  lemma WalkEndsIff(s: RouterState, h: nat, n: int)
    requires Coherent(s) && |Circle(s.ring, h)| > 0
    ensures (exists m :: Stops(s, h, n, m)) <==> Represented(s, n)
  {
    hide Circle, Firsts, Met, OnRing;
    if Represented(s, n) {
      MetOnce(s, h, n);
    } else {
      forall m ensures !Stops(s, h, n, m) { MetOnRing(s.ring, h, m); }
    }
  }

  // -------------------------------------------------------------------------
  // A node crowded off the ring
  // -------------------------------------------------------------------------

  /** Two nodes, the second joining after the first. */
  function TwoJoined(hash: string -> nat, vnodes: nat, a: NodeInfo, b: NodeInfo): RouterState {
    Ran(hash, vnodes, [Join(a), Join(b)])
  }

  lemma TwoJoinedIs(hash: string -> nat, vnodes: nat, a: NodeInfo, b: NodeInfo)
    requires a.nodeId != b.nodeId
    ensures
      var s := TwoJoined(hash, vnodes, a, b);
      && s.ring == Placed(hash, Placed(hash, map[], a.nodeId, vnodes), b.nodeId, vnodes)
      && s.nodes.Keys == {a.nodeId, b.nodeId} && |s.nodes| == 2 && Coherent(s)
  {
    var s0 := RouterState(vnodes, map[], map[]);
    var s1 := Added(hash, s0, a);
    var ops := [Join(a), Join(b)];
    assert ops[..1] == [Join(a)] && [Join(a)][..0] == [];
    assert Ran(hash, vnodes, []) == s0 && Ran(hash, vnodes, [Join(a)]) == s1;
    AddedCoherent(hash, s0, a);
    AddedCoherent(hash, s1, b);
    assert |TwoJoined(hash, vnodes, a, b).nodes.Keys| == 2;
  }

  /** Some virtual node of `a` is at a position no virtual node of `b` has. */
  ghost predicate KeepsPosition(hash: string -> nat, vnodes: nat, a: string, b: string) {
    exists i: nat :: i < vnodes && !Owns(hash, vnodes, b, Position(hash, a, i))
  }

  lemma TwoJoinedValues(hash: string -> nat, vnodes: nat, a: string, b: string)
    requires a != b && vnodes >= 1
    ensures
      var ring := Placed(hash, Placed(hash, map[], a, vnodes), b, vnodes);
      ring.Values == if KeepsPosition(hash, vnodes, a, b) then {a, b} else {b}
  {
    var first := Placed(hash, map[], a, vnodes);
    var ring := Placed(hash, first, b, vnodes);
    PlacedHas(hash, first, b, vnodes, 0);
    assert b in ring.Values;
    if i: nat :| i < vnodes && !Owns(hash, vnodes, b, Position(hash, a, i)) {
      var p := Position(hash, a, i);
      PlacedHas(hash, map[], a, vnodes, i);
      PlacedKeeps(hash, first, b, vnodes, p);
      assert p in ring && ring[p] == a;
    }
    forall x | x in ring.Values ensures x == b || (x == a && KeepsPosition(hash, vnodes, a, b)) {
      var p :| p in ring && ring[p] == x;
      OwnerOf(hash, vnodes, a, b, p);
    }
  }

  lemma OwnerOf(hash: string -> nat, vnodes: nat, a: string, b: string, p: nat)
    requires p in Placed(hash, Placed(hash, map[], a, vnodes), b, vnodes)
    ensures
      var x := Placed(hash, Placed(hash, map[], a, vnodes), b, vnodes)[p];
      x == b || (x == a && KeepsPosition(hash, vnodes, a, b))
  {
    var first := Placed(hash, map[], a, vnodes);
    PlacedKeeps(hash, first, b, vnodes, p);
    if Owns(hash, vnodes, b, p) {
      var j: nat :| j < vnodes && Position(hash, b, j) == p;
      PlacedHas(hash, first, b, vnodes, j);
    } else {
      PlacedKeeps(hash, map[], a, vnodes, p);
      PlacedValues(hash, map[], a, vnodes, p);
      var i: nat :| i < vnodes && Position(hash, a, i) == p;
      assert !Owns(hash, vnodes, b, Position(hash, a, i));
    }
  }

  /** After two joins, asking for two owners ends if and only if the first node kept a position. */
  lemma TwoNodesEndIff(hash: string -> nat, vnodes: nat, a: NodeInfo, b: NodeInfo, h: nat)
    requires a.nodeId != b.nodeId && vnodes >= 1
    ensures
      var s := TwoJoined(hash, vnodes, a, b);
      |Circle(s.ring, h)| > 0 && ((exists m :: Stops(s, h, 2, m)) <==> KeepsPosition(hash, vnodes, a.nodeId, b.nodeId))
  {
    hide Circle, Firsts, Met, TwoJoined, KeepsPosition, Placed, Stops;
    var s := TwoJoined(hash, vnodes, a, b);
    TwoJoinedIs(hash, vnodes, a, b);
    TwoJoinedValues(hash, vnodes, a.nodeId, b.nodeId);
    assert b.nodeId in s.ring.Values;
    var p :| p in s.ring && s.ring[p] == b.nodeId;
    CircleAt(s.ring, h, 0);
    WalkEndsIff(s, h, 2);
  }

  /** With a hash that puts every virtual node at one position, it never ends. */
  lemma CrowdedOutNeverEnds(a: NodeInfo, b: NodeInfo, vnodes: nat, h: nat)
    requires a.nodeId != b.nodeId && vnodes >= 1
    ensures
      var s := TwoJoined(_ => 0, vnodes, a, b);
      |Circle(s.ring, h)| > 0 && forall m :: !Stops(s, h, 2, m)
  {
    hide Circle, TwoJoined, Stops;
    var hash := _ => 0;
    TwoNodesEndIff(hash, vnodes, a, b, h);
    assert !KeepsPosition(hash, vnodes, a.nodeId, b.nodeId) by {
      assert Position(hash, b.nodeId, 0) == 0;
      assert Owns(hash, vnodes, b.nodeId, 0);
    }
  }
}
