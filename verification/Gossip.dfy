/**
 A node's membership and ring together: the callback that keeps the router in
 step with SWIM, and what holds of the pair over every run.
 */
module Gossip {
  import opened Text
  import opened Nodes
  import opened Ring
  import opened Routers
  import opened Membership
  import opened Sync
  import opened Swims

  datatype NodeState = NodeState(swim: SwimState, router: RouterState)

  /** The ring callback: life adds a node, death keeps its slots, departure takes them. */
  function OnNotice(hash: string -> nat, router: RouterState, nt: Notice): RouterState {
    match nt.state
    case Alive => Added(hash, router, nt.info)
    case Left => Removed(router, nt.info.nodeId)
    case _ => router
  }

  function OnNotices(hash: string -> nat, router: RouterState, fired: seq<Notice>): RouterState {
    if fired == [] then router
    else OnNotice(hash, OnNotices(hash, router, fired[..|fired| - 1]), fired[|fired| - 1])
  }

  function NodeApply(hash: string -> nat, n: NodeState, op: Op): NodeState {
    var r := Apply(n.swim, op);
    NodeState(r.state, OnNotices(hash, n.router, r.fired))
  }

  /** A fresh process: knows nobody, and has put itself on its own ring. */
  function Booted(hash: string -> nat, self: NodeInfo, vnodes: nat): NodeState {
    NodeState(SwimState(View(self, 0, false, map[]), []), Added(hash, RouterState(vnodes, map[], map[]), self))
  }

  function NodeRun(hash: string -> nat, n: NodeState, ops: seq<Op>): NodeState {
    if ops == [] then n else NodeApply(hash, NodeRun(hash, n, ops[..|ops| - 1]), ops[|ops| - 1])
  }

  // -------------------------------------------------------------------------
  // The ring follows the membership
  // -------------------------------------------------------------------------

  predicate OnTheRing(e: Entry) { e.state.Alive? || e.state.Suspect? }

  ghost predicate EntryMatches(router: RouterState, id: string, e: Entry) {
    (OnTheRing(e) ==> id in router.nodes) && (e.state.Left? ==> id !in router.nodes)
  }

  /**
   The router holds this node unless retired, every Alive or Suspect member,
   possibly some Dead ones, never a Left one, and nobody else.
   */
  ghost predicate InStep(v: View, router: RouterState) {
    && WellFormed(v) && Coherent(router)
    && (v.self.nodeId in router.nodes <==> !v.left)
    && (forall id | id in v.members :: EntryMatches(router, id, v.members[id]))
    && (forall id | id in router.nodes :: id == v.self.nodeId || id in v.members)
  }

  /** What an entry may become, and the callbacks that must go with it. */
  predicate Announced(held: Option<Entry>, e: Entry, fired: seq<Notice>) {
    && (held.Some? && held.value.state.Left? ==> e.state.Left?)
    && (|| (fired == [Notice(e.info, e.state)] && !e.state.Suspect?)
        || (fired == [] && e.state.Dead?)
        || (fired == [] && OnTheRing(e) && held.Some? && OnTheRing(held.value))
        || (fired == [] && e.state.Left? && (held.None? || held.value.state.Left?)))
  }

  lemma OneNotice(hash: string -> nat, router: RouterState, nt: Notice)
    ensures OnNotices(hash, router, [nt]) == OnNotice(hash, router, nt)
  {
    assert [nt][..0] == [];
  }

  /** Filing an entry and firing what it announces keeps the ring in step. */
  lemma FilingKeepsStep(hash: string -> nat, v: View, router: RouterState, id: string, e: Entry, fired: seq<Notice>)
    requires InStep(v, router) && id != v.self.nodeId && e.info.nodeId == id && Announced(Lookup(v, id), e, fired)
    ensures InStep(v.(members := v.members[id := e]), OnNotices(hash, router, fired))
  {
    if fired != [] {
      OneNotice(hash, router, Notice(e.info, e.state));
      NoticeKeepsOthers(hash, router, Notice(e.info, e.state));
    }
  }

  lemma NoticeKeepsOthers(hash: string -> nat, router: RouterState, nt: Notice)
    requires Coherent(router)
    ensures
      var r := OnNotice(hash, router, nt);
      && Coherent(r)
      && (forall id | id != nt.info.nodeId :: id in r.nodes <==> id in router.nodes)
      && (nt.state.Alive? ==> nt.info.nodeId in r.nodes)
      && (nt.state.Left? ==> nt.info.nodeId !in r.nodes)
      && (nt.state.Dead? || nt.state.Suspect? ==> r == router)
  {
    AddedCoherent(hash, router, nt.info);
    RemovedCoherent(router, nt.info.nodeId);
  }

  lemma DeliverAnnounces(v: View, ev: Event, now: nat)
    requires WellFormed(v) && ev.nodeId != v.self.nodeId && Wins(ev, Lookup(v, ev.nodeId))
    ensures
      var held := Lookup(v, ev.nodeId);
      var e := Adopted(ev, held, now);
      e.info.nodeId == ev.nodeId && Announced(held, e, FiredBy(ev, held, now))
  {
  }

  lemma SelfKeepsStep(hash: string -> nat, v: View, router: RouterState)
    requires InStep(v, router)
    ensures InStep(v.(left := true), OnNotices(hash, router, [Notice(v.self, Left)]))
  {
    OneNotice(hash, router, Notice(v.self, Left));
    NoticeKeepsOthers(hash, router, Notice(v.self, Left));
  }

  lemma DeliverKeepsStep(hash: string -> nat, v: View, router: RouterState, ev: Event, now: nat)
    requires InStep(v, router)
    ensures
      var o := Deliver(v, ev, now);
      InStep(o.view, OnNotices(hash, router, o.fired))
  {
    if ev.nodeId == v.self.nodeId {
      if ev.kind.Leave? && !v.left { SelfKeepsStep(hash, v, router); }
    } else {
      var held := Lookup(v, ev.nodeId);
      if Wins(ev, held) {
        DeliverAnnounces(v, ev, now);
        FilingKeepsStep(hash, v, router, ev.nodeId, Adopted(ev, held, now), FiredBy(ev, held, now));
      }
    }
  }

  lemma JoinKeepsStep(hash: string -> nat, n: NodeState, ev: Event)
    requires InStep(n.swim.view, n.router)
    ensures InStep(NodeApply(hash, n, OpJoin(ev)).swim.view, NodeApply(hash, n, OpJoin(ev)).router)
  {
    var held := Lookup(n.swim.view, ev.nodeId);
    var r := DirectJoin(n.swim, ev);
    if r.changed {
      FilingKeepsStep(hash, n.swim.view, n.router, ev.nodeId, Joined(ev, held), r.fired);
    }
  }

  lemma ConfirmKeepsStep(hash: string -> nat, s: SwimState, router: RouterState, id: string)
    requires InStep(s.view, router)
    ensures InStep(ConfirmDead(s, id).state.view, OnNotices(hash, router, ConfirmDead(s, id).fired))
    ensures OnNotices(hash, router, ConfirmDead(s, id).fired) == router
  {
    if id in s.view.members && s.view.members[id].state !in {Dead, Left} {
      var e := s.view.members[id].(state := Dead);
      FilingKeepsStep(hash, s.view, router, id, e, [Notice(e.info, Dead)]);
      OneNotice(hash, router, Notice(e.info, Dead));
    }
  }

  /** Any number of expiries leave the router untouched. */
  lemma {:induction false} ExpireKeepsStep(
    hash: string -> nat, s: SwimState, router: RouterState, ids: seq<string>, now: nat, timeout: nat)
    requires InStep(s.view, router)
    ensures
      var r := ExpireAll(s, ids, now, timeout);
      InStep(r.state.view, router) && OnNotices(hash, router, r.fired) == router
    decreases |ids|
  {
    if ids != [] {
      var r := ExpireAll(s, ids[..|ids| - 1], now, timeout);
      var id := ids[|ids| - 1];
      ExpireKeepsStep(hash, s, router, ids[..|ids| - 1], now, timeout);
      ConfirmKeepsStep(hash, r.state, router, id);
      NoticesConcat(hash, router, r.fired, ExpireOne(r.state, id, now, timeout).fired);
    }
  }

  lemma {:induction false} NoticesConcat(hash: string -> nat, router: RouterState, a: seq<Notice>, b: seq<Notice>)
    ensures OnNotices(hash, router, a + b) == OnNotices(hash, OnNotices(hash, router, a), b)
    decreases |b|
  {
    if b == [] {
      assert a + b == a;
    } else {
      assert (a + b)[..|a + b| - 1] == a + b[..|b| - 1];
      NoticesConcat(hash, router, a, b[..|b| - 1]);
    }
  }

  lemma LeaveKeepsStep(hash: string -> nat, n: NodeState, id: string)
    requires InStep(n.swim.view, n.router)
    ensures InStep(NodeApply(hash, n, OpLeave(id)).swim.view, NodeApply(hash, n, OpLeave(id)).router)
  {
    var v := n.swim.view;
    if id == v.self.nodeId {
      SelfKeepsStep(hash, v, n.router);
    } else if id in v.members && !v.members[id].state.Left? {
      var e := v.members[id].(state := Left);
      FilingKeepsStep(hash, v, n.router, id, e, [Notice(e.info, Left)]);
    }
  }

  lemma SuspectKeepsStep(hash: string -> nat, n: NodeState, id: string, now: nat)
    requires InStep(n.swim.view, n.router)
    ensures InStep(NodeApply(hash, n, OpSuspect(id, now)).swim.view, NodeApply(hash, n, OpSuspect(id, now)).router)
  {
    var v := n.swim.view;
    if id in v.members && v.members[id].state.Alive? {
      FilingKeepsStep(hash, v, n.router, id, v.members[id].(state := Suspect, since := now), []);
    }
  }

  /** Every operation keeps the ring in step with the membership. */
  lemma ApplyKeepsStep(hash: string -> nat, n: NodeState, op: Op)
    requires InStep(n.swim.view, n.router)
    ensures InStep(NodeApply(hash, n, op).swim.view, NodeApply(hash, n, op).router)
  {
    hide InStep, Deliver, DirectJoin, LeaveNode, ConfirmDead, ExpireAll, Coherent;
    match op
    case OpReceive(ev, now) => ReceiveKeepsStep(hash, n, ev, now);
    case OpJoin(ev) => JoinKeepsStep(hash, n, ev);
    case OpLeave(id) => LeaveKeepsStep(hash, n, id);
    case OpSuspect(id, now) => SuspectKeepsStep(hash, n, id, now);
    case OpConfirm(id) => ConfirmKeepsStep(hash, n.swim, n.router, id);
    case OpExpire(ids, now, timeout) => ExpireKeepsStep(hash, n.swim, n.router, ids, now, timeout);
    case OpRefute => RefuteKeepsStep(hash, n);
    case OpSend =>
  }

  lemma ReceiveKeepsStep(hash: string -> nat, n: NodeState, ev: Event, now: nat)
    requires InStep(n.swim.view, n.router)
    ensures InStep(NodeApply(hash, n, OpReceive(ev, now)).swim.view, NodeApply(hash, n, OpReceive(ev, now)).router)
  {
    hide InStep, Deliver, Coherent;
    DeliverKeepsStep(hash, n.swim.view, n.router, ev, now);
  }

  lemma RefuteKeepsStep(hash: string -> nat, n: NodeState)
    requires InStep(n.swim.view, n.router)
    ensures InStep(Refute(n.swim).view, n.router)
  {
  }

  lemma BootedInStep(hash: string -> nat, self: NodeInfo, vnodes: nat)
    ensures InStep(Booted(hash, self, vnodes).swim.view, Booted(hash, self, vnodes).router)
  {
    AddedCoherent(hash, RouterState(vnodes, map[], map[]), self);
  }

  lemma {:induction false} RunKeepsStep(hash: string -> nat, n: NodeState, ops: seq<Op>)
    requires InStep(n.swim.view, n.router)
    ensures InStep(NodeRun(hash, n, ops).swim.view, NodeRun(hash, n, ops).router)
    decreases |ops|
  {
    hide InStep, Apply;
    if ops != [] {
      RunKeepsStep(hash, n, ops[..|ops| - 1]);
      ApplyKeepsStep(hash, NodeRun(hash, n, ops[..|ops| - 1]), ops[|ops| - 1]);
    }
  }

  /** The ring/membership invariant holds after every run of a node. */
  lemma AlwaysInStep(hash: string -> nat, self: NodeInfo, vnodes: nat, ops: seq<Op>)
    ensures
      var n := NodeRun(hash, Booted(hash, self, vnodes), ops);
      InStep(n.swim.view, n.router)
  {
    hide InStep, NodeRun, Booted;
    BootedInStep(hash, self, vnodes);
    RunKeepsStep(hash, Booted(hash, self, vnodes), ops);
  }

  // -------------------------------------------------------------------------
  // What a run can never do
  // -------------------------------------------------------------------------

  /** Departed, as this view knows it. */
  predicate Gone(v: View, id: string) {
    if id == v.self.nodeId then v.left else id in v.members && v.members[id].state.Left?
  }

  lemma GoneStays(v: View, w: View, id: string)
    requires ViewBelow(v, w) && Gone(v, id)
    ensures Gone(w, id)
  {
  }

  lemma {:induction false} RunAgrees(hash: string -> nat, n: NodeState, ops: seq<Op>)
    ensures NodeRun(hash, n, ops).swim == Run(n.swim, ops)
    decreases |ops|
  {
    hide Apply, OnNotices;
    if ops != [] { RunAgrees(hash, n, ops[..|ops| - 1]); }
  }

  lemma {:induction false} SelectedWanted(v: View, ids: seq<string>, want: MemberState -> bool)
    requires forall id | id in ids :: id in v.members
    ensures forall e | e in Selected(v, ids, want) :: want(e.state) && exists id | id in ids :: e == v.members[id]
    decreases |ids|
  {
    if ids != [] {
      var init := ids[..|ids| - 1];
      SelectedWanted(v, init, want);
      forall e | e in Selected(v, ids, want) ensures want(e.state) && exists id | id in ids :: e == v.members[id] {
        if e !in Selected(v, init, want) { assert ids[|ids| - 1] in ids; }
      }
    }
  }

  /** No list of peers that does not ask for the departed contains one. */
  lemma GoneIsNoPeer(v: View, id: string, want: MemberState -> bool)
    requires WellFormed(v) && Gone(v, id) && !want(Left)
    ensures forall e | e in Selected(v, MemberIds(v), want) :: e.info.nodeId != id
  {
    hide MemberIds, Selected;
    SelectedWanted(v, MemberIds(v), want);
  }

  lemma OffTheRingOwnsNothing(router: RouterState, id: string, h: nat, n: int)
    requires Coherent(router) && id !in router.nodes
    ensures id !in OwnerIds(router, h, n)
  {
    PreferenceKnown(router, h);
    assert OwnerIds(router, h, n) <= Preference(router.ring, h);
  }

  /**
   A departed node never comes back: whatever happens after its departure is
   known, it is on no ring, owns no key and is in no list of peers.
   */
  lemma NeverReturns(hash: string -> nat, self: NodeInfo, vnodes: nat, ops: seq<Op>, i: nat, id: string)
    requires i <= |ops| && Gone(NodeRun(hash, Booted(hash, self, vnodes), ops[..i]).swim.view, id)
    ensures
      var n := NodeRun(hash, Booted(hash, self, vnodes), ops);
      && Gone(n.swim.view, id) && id !in n.router.nodes
      && (forall h, k :: id !in OwnerIds(n.router, h, k))
      && (forall want: MemberState -> bool | !want(Left) ::
            forall e | e in Selected(n.swim.view, MemberIds(n.swim.view), want) :: e.info.nodeId != id)
  {
    hide NodeRun, Booted, Run, ViewBelow, Selected, MemberIds, OwnerIds;
    var b := Booted(hash, self, vnodes);
    var n := NodeRun(hash, b, ops);
    RunAgrees(hash, b, ops[..i]);
    RunAgrees(hash, b, ops);
    RunUp(b.swim, ops, i);
    GoneStays(Run(b.swim, ops[..i]).view, n.swim.view, id);
    AlwaysInStep(hash, self, vnodes, ops);
    forall h, k ensures id !in OwnerIds(n.router, h, k) { OffTheRingOwnsNothing(n.router, id, h, k); }
    forall want: MemberState -> bool | !want(Left)
      ensures forall e | e in Selected(n.swim.view, MemberIds(n.swim.view), want) :: e.info.nodeId != id
    {
      GoneIsNoPeer(n.swim.view, id, want);
    }
  }

  /** Suspicion, death and news of either: a judgement about a node's health, not about its membership. */
  predicate AboutHealth(op: Op) {
    match op
    case OpReceive(ev, _) => ev.kind.Suspect? || ev.kind.Dead?
    case OpSuspect(_, _) => true
    case OpConfirm(_) => true
    case OpExpire(_, _, _) => true
    case OpRefute => true
    case OpSend => true
    case _ => false
  }

  lemma ReceiveQuiet(hash: string -> nat, n: NodeState, ev: Event, now: nat)
    requires ev.kind.Suspect? || ev.kind.Dead?
    ensures NodeApply(hash, n, OpReceive(ev, now)).router == n.router
  {
    var held := Lookup(n.swim.view, ev.nodeId);
    if ev.nodeId != n.swim.view.self.nodeId && Wins(ev, held) && held.Some? && ev.kind.Dead? {
      OneNotice(hash, n.router, Notice(held.value.info, Dead));
    }
  }

  lemma HealthKeepsRouter(hash: string -> nat, n: NodeState, op: Op)
    requires InStep(n.swim.view, n.router) && AboutHealth(op)
    ensures NodeApply(hash, n, op).router == n.router
  {
    hide InStep, Deliver, ConfirmDead, ExpireAll, Coherent;
    match op
    case OpReceive(ev, now) => ReceiveQuiet(hash, n, ev, now);
    case OpConfirm(id) => ConfirmKeepsStep(hash, n.swim, n.router, id);
    case OpExpire(ids, now, timeout) => ExpireKeepsStep(hash, n.swim, n.router, ids, now, timeout);
    case _ =>
  }

  /**
   However many nodes are suspected or declared dead, in any order, by this node
   or by others, no key changes owners.
   */
  lemma {:induction false} FailuresMoveNoKey(hash: string -> nat, n: NodeState, ops: seq<Op>)
    requires InStep(n.swim.view, n.router) && forall op | op in ops :: AboutHealth(op)
    ensures
      var m := NodeRun(hash, n, ops);
      InStep(m.swim.view, m.router) && forall h, k :: OwnerIds(m.router, h, k) == OwnerIds(n.router, h, k)
    ensures NodeRun(hash, n, ops).router == n.router
    decreases |ops|
  {
    hide InStep, NodeApply, AboutHealth, OwnerIds;
    if ops != [] {
      var init := ops[..|ops| - 1];
      assert ops[|ops| - 1] in ops && forall op | op in init :: op in ops;
      FailuresMoveNoKey(hash, n, init);
      HealthKeepsRouter(hash, NodeRun(hash, n, init), ops[|ops| - 1]);
      ApplyKeepsStep(hash, NodeRun(hash, n, init), ops[|ops| - 1]);
    }
  }

  /** A departure asked for here takes a known node off the ring at once. */
  lemma LeaveTakesOff(hash: string -> nat, n: NodeState, id: string)
    requires InStep(n.swim.view, n.router) && (id == n.swim.view.self.nodeId || id in n.swim.view.members)
    ensures
      var t := NodeApply(hash, n, OpLeave(id));
      Gone(t.swim.view, id) && id !in t.router.nodes
  {
    hide Coherent, OnNotices;
    LeaveKeepsStep(hash, n, id);
  }

  /** And for good: whatever comes after, it is on no ring, owns no key and is in no list of peers. */
  lemma LeaveIsForGood(hash: string -> nat, self: NodeInfo, vnodes: nat, ops: seq<Op>, i: nat, id: string)
    requires i < |ops| && ops[i] == OpLeave(id)
    requires
      var v := NodeRun(hash, Booted(hash, self, vnodes), ops[..i]).swim.view;
      id == v.self.nodeId || id in v.members
    ensures
      var n := NodeRun(hash, Booted(hash, self, vnodes), ops);
      && id !in n.router.nodes
      && (forall h, k :: id !in OwnerIds(n.router, h, k))
      && (forall want: MemberState -> bool | !want(Left) ::
            forall e | e in Selected(n.swim.view, MemberIds(n.swim.view), want) :: e.info.nodeId != id)
  {
    hide Booted, InStep, NodeApply, OwnerIds, Selected, MemberIds, Gone;
    AlwaysInStep(hash, self, vnodes, ops[..i]);
    LeaveTakesOff(hash, NodeRun(hash, Booted(hash, self, vnodes), ops[..i]), id);
    assert ops[..i + 1][..i] == ops[..i];
    NeverReturns(hash, self, vnodes, ops, i + 1, id);
  }
}
